/** The evaluation from plain text, src/model/evaluator.cpp:140-190. */
module Evaluation {
  import opened Sentences
  import Lcs
  import opened Alignment
  import opened AlignmentEnds
  import opened AlignmentPairs
  import opened EvaluationData

  // The data of the system and of the gold sentences are compared over the same characters: tokens, multiword tokens
  // and sentences by their spans, words by the alignment, heads and relations by the aligned words.

  datatype Scores = Scores(tokens: F1, multiwords: F1, sentences: F1, words: F1, uas: F1, las: F1)

  // ---------- what a run of sentences brings ----------

  /** Data of a run of sentences without blank tokens: it is fit for the alignment and for the counts. */
  ghost predicate Comparable(d: Data) {
    && DenseIds(d.words) && HeadsInside(d.words) && TextOrder(d.words) && ProperMultiwords(d.words)
    && FirstsIncreasing(d.tokens) && FirstsIncreasing(d.multiwords) && FirstsIncreasing(d.sentences)
  }

  lemma {:induction false} RunsComparable(lower: char -> char, input: seq<Input>)
    requires forall k | 0 <= k < |input| :: Accepted(input[k]) && Full(input[k])
    ensures Comparable(AddAll(lower, NO_DATA, input))
    ensures (forall k | 0 <= k < |input| :: input[k].mwts == []) ==>
              NoMultiwords(AddAll(lower, NO_DATA, input).words) && StartsIncreasing(AddAll(lower, NO_DATA, input).words)
  {
    RunsKeepLayout(lower, input);
    RunsFill(lower, input);
    var d := AddAll(lower, NO_DATA, input);
    FilledComparable(d);
    if forall k | 0 <= k < |input| :: input[k].mwts == [] {
      RunsPlain(lower, input);
      PlainStarts(d.words);
    }
  }

  lemma {:induction false} FilledComparable(d: Data)
    requires Layout(d) && HeadsInside(d.words) && Filling(d) && SentencesFilling(d)
    ensures Comparable(d)
  {
    LayoutOrders(d);
    NonblankTokensIncrease(d.tokens, |d.chars|);
    NonblankTokensIncrease(d.sentences, |d.chars|);
  }

  lemma {:induction false} PlainStarts(d: seq<WordData>)
    requires TextOrder(d) && NoMultiwords(d)
    ensures StartsIncreasing(d)
  {
    forall i, j | 0 <= i < j < |d| ensures d[i].start < d[j].start { assert SameTokenOrBefore(d[i], d[j]); }
  }

  lemma {:induction false} RunsPlain(lower: char -> char, input: seq<Input>)
    requires forall k | 0 <= k < |input| :: Accepted(input[k])
    requires forall k | 0 <= k < |input| :: input[k].mwts == []
    ensures NoMultiwords(AddAll(lower, NO_DATA, input).words)
    decreases |input|
  {
    if input != [] {
      var n := |input| - 1;
      RunsPlain(lower, input[..n]);
      SurfaceTiles(input[n].words, [], 1, 0);
      PlainTokens(lower, AddAll(lower, NO_DATA, input[..n]), input[n].words, 1);
    }
  }

  lemma {:induction false} PlainTokens(lower: char -> char, d: Data, words: seq<Word>, i: nat)
    requires OrderedRanges(|words|, []) && i <= |words| && NoMultiwords(d.words)
    ensures NoMultiwords(AddFrom(lower, d, words, [], i, 0).words)
    decreases |words| - i
  {
    AddFromStep(lower, d, words, [], i, 0);
    if i < |words| { PlainTokens(lower, AddToken(lower, d, words, SurfaceAt(words, [], i, 0)), words, i + 1); }
  }

  // ---------- the scores ----------

  ghost function Agreeing(matched: seq<Match>, n: nat, equals: (Word, Word) -> bool): set<nat>
    requires n <= |matched|
  {
    set k: nat | k < n && equals(matched[k].system, matched[k].gold)
  }

  /** Counts the matched words that agree. */
  method CountWords(totalSystem: nat, totalGold: nat, matched: seq<Match>, equals: (Word, Word) -> bool)
    returns (r: F1)
    ensures r == MakeF1(|Agreeing(matched, |matched|, equals)|, totalSystem, totalGold)
  {
    var both := 0;
    for i := 0 to |matched|
      invariant both == |Agreeing(matched, i, equals)|
    {
      assert Agreeing(matched, i + 1, equals) ==
             Agreeing(matched, i, equals) + if equals(matched[i].system, matched[i].gold) then {i} else {};
      if equals(matched[i].system, matched[i].gold) { both := both + 1; }
    }
    r := MakeF1(both, totalSystem, totalGold);
  }

  /** The n-th aligned pair has the same head: the root or an undefined one on both sides, or words aligned with each
      other, or an undefined one in the gold data and a word aligned with nothing. */
  ghost predicate SameHead(sys: seq<WordData>, gold: seq<WordData>, pairs: seq<(nat, nat)>, n: nat)
    requires n < |pairs| && InBounds(sys, gold, pairs)
  {
    var h, g := sys[pairs[n].0].w.head, gold[pairs[n].1].w.head;
    || (h <= 0 && g == h)
    || (h > 0 && exists m | 0 <= m < |pairs| :: pairs[m].0 == h - 1 && pairs[m].1 == g - 1)
    || (h > 0 && g == -1 && forall m | 0 <= m < |pairs| :: pairs[m].0 != h - 1)
  }

  ghost function Attached(sys: seq<WordData>, gold: seq<WordData>, pairs: seq<(nat, nat)>, labelled: bool): set<nat>
    requires InBounds(sys, gold, pairs)
  {
    set n: nat | n < |pairs| && SameHead(sys, gold, pairs, n)
                 && (labelled ==> sys[pairs[n].0].w.deprel == gold[pairs[n].1].w.deprel)
  }

  predicate SameAttachment(w: Word, u: Word) { w.head == u.head }

  predicate SameLabelled(w: Word, u: Word) { w.head == u.head && w.deprel == u.deprel }

  lemma {:induction false} AttachedExactly(sys: seq<WordData>, gold: seq<WordData>, pairs: seq<(nat, nat)>,
      matched: seq<Match>)
    requires DenseIds(gold) && Lcs.Increasing(pairs) && MatchedBy(sys, gold, pairs, matched)
    ensures Agreeing(matched, |matched|, SameAttachment) == Attached(sys, gold, pairs, false)
    ensures Agreeing(matched, |matched|, SameLabelled) == Attached(sys, gold, pairs, true)
  {
    forall k: nat | k < |pairs|
      ensures matched[k].system.head == matched[k].gold.head <==> SameHead(sys, gold, pairs, k)
    {
      HeadsAgree(gold, pairs, sys[pairs[k].0].w.head, matched[k].system.head, gold[pairs[k].1].w.head);
    }
  }

  lemma {:induction false} AllAgree(matched: seq<Match>, n: nat)
    requires n <= |matched|
    ensures |Agreeing(matched, n, (w, u) => true)| == n
    decreases n
  {
    if n > 0 {
      AllAgree(matched, n - 1);
      assert Agreeing(matched, n, (w, u) => true) == Agreeing(matched, n - 1, (w, u) => true) + {n - 1};
    }
  }

  /** The score of two lists of spans: what both have, when the spans of each start one after the other. */
  ghost predicate SpanScore<T>(system: seq<(nat, T)>, gold: seq<(nat, T)>, r: F1) {
    FirstsIncreasing(system) && FirstsIncreasing(gold) ==>
      r == MakeF1(|Shared(system, gold, 0, 0)|, |system|, |gold|)
  }

  /** The scores over two data: none when their characters differ. */
  method EvaluatePlain(system: Data, gold: Data) returns (r: Option<Scores>)
    requires DenseIds(system.words) && HeadsInside(system.words) && DenseIds(gold.words)
    requires system.chars == gold.chars ==> Ends(system.words, gold.words, 0, 0)
    ensures r.None? <==> system.chars != gold.chars
    ensures r.Some? ==>
              && SpanScore(system.tokens, gold.tokens, r.value.tokens)
              && SpanScore(system.multiwords, gold.multiwords, r.value.multiwords)
              && SpanScore(system.sentences, gold.sentences, r.value.sentences)
    ensures r.Some? ==>
              var s, g := system.words, gold.words;
              var p := Align(s, g, 0, 0);
              && InBounds(s, g, p)
              && r.value.words == MakeF1(|p|, |s|, |g|)
              && r.value.uas == MakeF1(|Attached(s, g, p, false)|, |s|, |g|)
              && r.value.las == MakeF1(|Attached(s, g, p, true)|, |s|, |g|)
  {
    if system.chars != gold.chars { return None; }
    AlignSound(system.words, gold.words, 0, 0);
    var totalSystem, totalGold, matched := BestAlignment(system.words, gold.words);
    var _, tokens := EvaluateF1(system.tokens, gold.tokens);
    var _, multiwords := EvaluateF1(system.multiwords, gold.multiwords);
    var _, sentences := EvaluateF1(system.sentences, gold.sentences);
    var words := CountWords(totalSystem, totalGold, matched, (w, u) => true);
    var uas := CountWords(totalSystem, totalGold, matched, SameAttachment);
    var las := CountWords(totalSystem, totalGold, matched, SameLabelled);
    AllAgree(matched, |matched|);
    AttachedExactly(system.words, gold.words, Align(system.words, gold.words, 0, 0), matched);
    r := Some(Scores(tokens, multiwords, sentences, words, uas, las));
  }

  /** Two runs of sentences without blank tokens can be evaluated. */
  lemma {:induction false} RunsEvaluate(lower: char -> char, system: seq<Input>, gold: seq<Input>)
    requires forall k | 0 <= k < |system| :: Accepted(system[k]) && Full(system[k])
    requires forall k | 0 <= k < |gold| :: Accepted(gold[k]) && Full(gold[k])
    ensures var s, g := AddAll(lower, NO_DATA, system), AddAll(lower, NO_DATA, gold);
            Comparable(s) && Comparable(g) && Ends(s.words, g.words, 0, 0)
  {
    RunsComparable(lower, system);
    RunsComparable(lower, gold);
    ProperEnds(AddAll(lower, NO_DATA, system).words, AddAll(lower, NO_DATA, gold).words, 0, 0);
  }

  /** Over two runs of sentences without blank tokens: a word outside multiword tokens that none of the other side
      overlaps is aligned with the word of the same span and with no other, and words of the same span outside multiword
      tokens are always aligned. */
  lemma {:induction false} RunsAlignWords(lower: char -> char, system: seq<Input>, gold: seq<Input>, i: nat, k: nat)
    requires forall n | 0 <= n < |system| :: Accepted(system[n]) && Full(system[n])
    requires forall n | 0 <= n < |gold| :: Accepted(gold[n]) && Full(gold[n])
    requires i < |AddAll(lower, NO_DATA, system).words| && k < |AddAll(lower, NO_DATA, gold).words|
    ensures var s, g := AddAll(lower, NO_DATA, system).words, AddAll(lower, NO_DATA, gold).words;
            && Ends(s, g, 0, 0)
            && (!s[i].isMultiword && Untouched(s[i], g) ==> ((i, k) in Align(s, g, 0, 0) <==> SameSpan(s[i], g[k])))
            && (!s[i].isMultiword && !g[k].isMultiword && SameSpan(s[i], g[k]) ==> (i, k) in Align(s, g, 0, 0))
  {
    var s, g := AddAll(lower, NO_DATA, system).words, AddAll(lower, NO_DATA, gold).words;
    RunsEvaluate(lower, system, gold);
    if !s[i].isMultiword && Untouched(s[i], g) { PlainExactly(s, g, i, k); }
    if !s[i].isMultiword && !g[k].isMultiword && SameSpan(s[i], g[k]) { EqualSpansMeet(s, g, i, k); }
  }

  /** Over any two runs of sentences, blank tokens among them: the alignment ends if and only if no empty multiword
      token is exposed, unless an empty word outside multiword tokens stands beside one. */
  lemma {:induction false} RunsEndExactly(lower: char -> char, system: seq<Input>, gold: seq<Input>)
    requires forall k | 0 <= k < |system| :: Accepted(system[k])
    requires forall k | 0 <= k < |gold| :: Accepted(gold[k])
    ensures var s, g := AddAll(lower, NO_DATA, system).words, AddAll(lower, NO_DATA, gold).words;
            && (NoneExposed(s, g) ==> Ends(s, g, 0, 0))
            && (NoPlainBeside(s, s, g) && NoPlainBeside(g, s, g) ==> (Ends(s, g, 0, 0) <==> NoneExposed(s, g)))
  {
    RunsKeepLayout(lower, system);
    RunsKeepLayout(lower, gold);
    EndsExactly(AddAll(lower, NO_DATA, system).words, AddAll(lower, NO_DATA, gold).words);
  }

  lemma {:induction false} SharedSelf<T>(s: seq<(nat, T)>, i: nat)
    requires FirstsIncreasing(s) && i <= |s|
    ensures |Shared(s, s, i, i)| == |s| - i
    decreases |s| - i
  {
    if i == |s| {
      assert Shared(s, s, i, i) == {};
    } else {
      SharedSelf(s, i + 1);
      TakeBoth(s, s, i, i);
    }
  }

  /** Data evaluated against itself: every span is shared, every word is aligned, and every head agrees. */
  lemma {:induction false} PerfectScores(d: Data, labelled: bool)
    requires Comparable(d)
    ensures |Shared(d.tokens, d.tokens, 0, 0)| == |d.tokens|
    ensures |Shared(d.multiwords, d.multiwords, 0, 0)| == |d.multiwords|
    ensures |Shared(d.sentences, d.sentences, 0, 0)| == |d.sentences|
    ensures Ends(d.words, d.words, 0, 0)
    ensures var p := Align(d.words, d.words, 0, 0);
            && |p| == |d.words| && InBounds(d.words, d.words, p)
            && |Attached(d.words, d.words, p, labelled)| == |d.words|
  {
    SharedSelf(d.tokens, 0);
    SharedSelf(d.multiwords, 0);
    SharedSelf(d.sentences, 0);
    SelfAlignment(d.words, 0);
    SelfAttached(d.words, Align(d.words, d.words, 0, 0), labelled);
  }

  ghost function Below(n: nat): (s: set<nat>)
    ensures |s| == n && forall k: nat :: k in s <==> k < n
  {
    if n == 0 then {} else Below(n - 1) + {n - 1}
  }

  lemma {:induction false} SelfAttached(d: seq<WordData>, p: seq<(nat, nat)>, labelled: bool)
    requires HeadsInside(d) && |p| == |d| && forall i | 0 <= i < |p| :: p[i] == (i, i)
    ensures InBounds(d, d, p) && |Attached(d, d, p, labelled)| == |d|
  {
    forall n: nat | n < |p| ensures SameHead(d, d, p, n) {
      var h := d[p[n].0].w.head;
      if h > 0 { assert p[h - 1] == (h - 1, h - 1); }
    }
    assert Attached(d, d, p, labelled) == Below(|d|);
  }

  // ---------- a blank multiword token ----------

  /** One word against the same word after a multiword token that is a space: the characters are the same, and the
      alignment of the two never ends. */
  lemma {:induction false} BlankMultiwordStalls(lower: char -> char, v: Word, w1: Word, w2: Word, w3: Word)
    requires v.form == "a" && w3.form == "a"
    ensures var mwts := [MultiwordToken(1, 2, " ", "", "")];
            && OrderedRanges(2, []) && OrderedRanges(4, mwts)
            && var s := AddSentence(lower, NO_DATA, [ROOT, v], []);
            var g := AddSentence(lower, NO_DATA, [ROOT, w1, w2, w3], mwts);
            s.chars == g.chars == "a" && !Ends(s.words, g.words, 0, 0)
  {
    var mwts := [MultiwordToken(1, 2, " ", "", "")];
    OneWord(lower, v);
    BlankFirst(lower, w1, w2, w3, mwts[0]);
    var s := AddSentence(lower, NO_DATA, [ROOT, v], []).words;
    var g := AddSentence(lower, NO_DATA, [ROOT, w1, w2, w3], mwts).words;
    StalledRound(s, g, 0, 0);
  }

  lemma {:induction false} LetterToken(lower: char -> char, d: Data, words: seq<Word>, t: Surface)
    requires d.chars == "" && t.form == "a" && t.first == t.last < |words| && !t.isMultiword
    ensures var r := AddToken(lower, d, words, t);
            && r.chars == "a"
            && r.words == d.words + [WordData(0, 1, false, MakeWord(lower, |d.words| + 1, words[t.first]))]
  {
    NonSpaceOne('a');
    var ws := words[t.first..t.last + 1];
    assert ws == [words[t.first]];
    assert AddWords(lower, ws, 0, 1, false, |d.words|) ==
           [WordData(0, 1, false, MakeWord(lower, |d.words| + 1, words[t.first]))];
  }

  lemma {:induction false} SpaceToken(lower: char -> char, words: seq<Word>, t: Surface)
    requires t.form == " " && t.first == 1 && t.last == 2 < |words| && t.isMultiword
    ensures var r := AddToken(lower, NO_DATA, words, t);
            && r.chars == "" && |r.words| == 2
            && r.words[0] == WordData(0, 0, true, MakeWord(lower, 1, words[1]))
  {
    NonSpaceOne(' ');
    assert words[1..3] == [words[1], words[2]];
  }

  lemma {:induction false} OneWord(lower: char -> char, v: Word)
    requires v.form == "a"
    ensures OrderedRanges(2, [])
    ensures var s := AddSentence(lower, NO_DATA, [ROOT, v], []);
            s.chars == "a" && s.words == [WordData(0, 1, false, MakeWord(lower, 1, v))]
  {
    var ws := [ROOT, v];
    AddFromStep(lower, NO_DATA, ws, [], 1, 0);
    LetterToken(lower, NO_DATA, ws, SurfaceAt(ws, [], 1, 0));
    AddFromStep(lower, AddToken(lower, NO_DATA, ws, SurfaceAt(ws, [], 1, 0)), ws, [], 2, 0);
  }

  lemma {:induction false} BlankFirst(lower: char -> char, w1: Word, w2: Word, w3: Word, m: MultiwordToken)
    requires w3.form == "a" && m == MultiwordToken(1, 2, " ", "", "")
    ensures OrderedRanges(4, [m])
    ensures var g := AddSentence(lower, NO_DATA, [ROOT, w1, w2, w3], [m]);
            && g.chars == "a" && |g.words| == 3
            && g.words[0] == WordData(0, 0, true, MakeWord(lower, 1, w1))
            && g.words[2] == WordData(0, 1, false, MakeWord(lower, 3, w3))
  {
    var ws := [ROOT, w1, w2, w3];
    var t, u := SurfaceAt(ws, [m], 1, 0), SurfaceAt(ws, [m], 3, 1);
    AddFromStep(lower, NO_DATA, ws, [m], 1, 0);
    SpaceToken(lower, ws, t);
    var d := AddToken(lower, NO_DATA, ws, t);
    AddFromStep(lower, d, ws, [m], 3, 1);
    LetterToken(lower, d, ws, u);
    AddFromStep(lower, AddToken(lower, d, ws, u), ws, [m], 4, 1);
  }
}
