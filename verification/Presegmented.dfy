/** The presegmented tokenizer, src/sentence/input_format.cpp:434-514: every line of the text becomes one sentence, put
    together from the sentences that the inner tokenizer finds on it. */
module Presegmented {
  import opened Sentences
  import opened Sequences
  import opened ConlluReader
  import opened ConlluRoundTrip

  // Ids, heads, multiword ranges and empty nodes of each part are shifted by the words before it; the lists of children
  // are not, which is why the merge keeps the tree only for parts without links.

  // ---------- lines ----------

  function BreakLength(s: string): (n: nat)
    ensures n <= |s|
  {
    if s == "" || !AtBreak(s[0]) then 0 else 1 + BreakLength(s[1..])
  }

  datatype Piece = Piece(lead: string, body: string, trail: string, rest: string)
  {
    function Taken(): string { lead + body + trail }
  }

  /** The next line with the line breaks around it, and the text after it. */
  function NextLine(text: string): Piece {
    var a := BreakLength(text);
    var b := a + LineLength(text[a..]);
    var c := b + BreakLength(text[b..]);
    Piece(text[..a], text[a..b], text[b..c], text[c..])
  }

  lemma {:induction false} ThreeCuts(text: string, a: nat, b: nat, c: nat)
    requires a <= b <= c <= |text|
    ensures text[..a] + text[a..b] + text[b..c] == text[..c] && text[..c] + text[c..] == text
    ensures text[a..][..b - a] == text[a..b]
  {
  }

  /** Nothing is lost at the cuts, and all line breaks after a line are taken with it ... */
  lemma {:induction false} NextLineCuts(text: string)
    ensures var p := NextLine(text);
            && p.Taken() + p.rest == text
            && (p.rest != "" ==> !AtBreak(p.rest[0]))
            && (text != "" ==> |p.rest| < |text|)
  {
    var a := BreakLength(text);
    var b := a + LineLength(text[a..]);
    var c := b + BreakLength(text[b..]);
    NextLineAt(text, a, b, c);
    BreaksAfter(text, b);
    if text != "" { SomeTaken(text); }
  }

  lemma {:induction false} NextLineAt(text: string, a: nat, b: nat, c: nat)
    requires a == BreakLength(text) && b == a + LineLength(text[a..]) && c == b + BreakLength(text[b..])
    ensures c <= |text| && NextLine(text).rest == text[c..] && NextLine(text).Taken() == text[..c]
    ensures text[..c] + text[c..] == text
  {
    ThreeCuts(text, a, b, c);
  }

  /** ... so every sentence stays on one line. */
  lemma {:induction false} NextLineUnbroken(text: string)
    ensures NoBreaks(NextLine(text).body)
  {
    var a := BreakLength(text);
    var b := a + LineLength(text[a..]);
    ThreeCuts(text, a, b, b);
    LineEnds(text[a..]);
  }

  lemma {:induction false} BreaksAfter(text: string, b: nat)
    requires b <= |text|
    ensures var c := b + BreakLength(text[b..]); text[c..] != "" ==> !AtBreak(text[c..][0])
  {
    BreaksEnd(text[b..]);
  }

  lemma {:induction false} SomeTaken(text: string)
    requires text != ""
    ensures BreakLength(text) + LineLength(text[BreakLength(text)..]) > 0
  {
    if AtBreak(text[0]) {
      BreaksEnd(text);
    } else {
      assert text[0..] == text;
      LineEnds(text);
    }
  }

  lemma {:induction false} BreaksEnd(s: string)
    ensures BreakLength(s) < |s| ==> !AtBreak(s[BreakLength(s)])
    ensures s != "" && AtBreak(s[0]) ==> BreakLength(s) > 0
    decreases |s|
  {
    if s != "" && AtBreak(s[0]) { BreaksEnd(s[1..]); }
  }

  lemma {:induction false} LineEnds(s: string)
    ensures NoBreaks(s[..LineLength(s)]) && (s != "" && !AtBreak(s[0]) ==> LineLength(s) > 0)
    decreases |s|
  {
    if s != "" && !AtBreak(s[0]) {
      LineEnds(s[1..]);
      assert s[..LineLength(s)] == [s[0]] + s[1..][..LineLength(s[1..])];
    }
  }

  // ---------- merging ----------

  datatype Parts = Parts(words: seq<Word>, mwts: seq<MultiwordToken>, empties: seq<EmptyNode>)

  const NOTHING := Parts([ROOT], [], [])

  function ShiftWord(w: Word, n: nat): Word { w.(id := w.id + n, head := if w.head > 0 then w.head + n else w.head) }

  function ShiftWords(ws: seq<Word>, n: nat): (r: seq<Word>)
    ensures |r| == |ws| && forall k | 0 <= k < |ws| :: r[k] == ShiftWord(ws[k], n)
  {
    seq(|ws|, k requires 0 <= k < |ws| => ShiftWord(ws[k], n))
  }

  function ShiftRange(m: MultiwordToken, n: nat): MultiwordToken { m.(idFirst := m.idFirst + n,
      idLast := m.idLast + n) }

  function ShiftRanges(ms: seq<MultiwordToken>, n: nat): (r: seq<MultiwordToken>)
    ensures |r| == |ms| && forall k | 0 <= k < |ms| :: r[k] == ShiftRange(ms[k], n)
  {
    seq(|ms|, k requires 0 <= k < |ms| => ShiftRange(ms[k], n))
  }

  function ShiftEmpty(e: EmptyNode, n: nat): EmptyNode { e.(id := e.id + n) }

  function ShiftEmpties(es: seq<EmptyNode>, n: nat): (r: seq<EmptyNode>)
    ensures |r| == |es| && forall k | 0 <= k < |es| :: r[k] == ShiftEmpty(es[k], n)
  {
    seq(|es|, k requires 0 <= k < |es| => ShiftEmpty(es[k], n))
  }

  function Merge(s: Parts, p: Parts): Parts
    requires |s.words| >= 1 && |p.words| >= 1
  {
    var n := |s.words| - 1;
    Parts(s.words + ShiftWords(p.words[1..], n), s.mwts + ShiftRanges(p.mwts, n),
          s.empties + ShiftEmpties(p.empties, n))
  }

  /** Root first, ids equal to positions, heads and multiword ranges inside the sentence. */
  ghost predicate Shaped(s: Parts) {
    && |s.words| >= 1 && s.words[0] == ROOT.(children := s.words[0].children)
    && (forall k {:trigger s.words[k]} | 0 <= k < |s.words| :: s.words[k].id == k && -1 <= s.words[k].head < |s.words|)
    && OrderedRanges(|s.words|, s.mwts)
  }

  lemma {:induction false} MergedRanges(n: nat, a: seq<MultiwordToken>, m: nat, b: seq<MultiwordToken>)
    requires n >= 1 && m >= 1 && OrderedRanges(n, a) && OrderedRanges(m, b)
    ensures OrderedRanges(n + m - 1, a + ShiftRanges(b, n - 1))
  {
    var c := a + ShiftRanges(b, n - 1);
    assert forall j | 0 <= j < |c| :: c[j] == if j < |a| then a[j] else ShiftRange(b[j - |a|], n - 1);
  }

  lemma {:induction false} MergedAt(s: Parts, p: Parts, k: nat)
    requires |s.words| >= 1 && |p.words| >= 1 && k < |Merge(s, p).words|
    ensures |Merge(s, p).words| == |s.words| + |p.words| - 1
    ensures var n := |s.words| - 1;
            Merge(s, p).words[k] == if k <= n then s.words[k] else ShiftWord(p.words[k - n], n)
  {
  }

  /** Merging keeps ids dense, heads inside and multiword ranges ordered and inside ... */
  lemma {:induction false} MergeKeepsShape(s: Parts, p: Parts)
    requires Shaped(s) && Shaped(p)
    ensures Shaped(Merge(s, p))
  {
    MergedRanges(|s.words|, s.mwts, |p.words|, p.mwts);
    WordsStayShaped(s, p);
  }

  lemma {:induction false} WordsStayShaped(s: Parts, p: Parts)
    requires Shaped(s) && Shaped(p)
    ensures var ws := Merge(s, p).words;
            && |ws| == |s.words| + |p.words| - 1 && ws[0] == s.words[0]
            && forall k {:trigger ws[k]} | 0 <= k < |ws| :: ws[k].id == k && -1 <= ws[k].head < |ws|
  {
    var ws := Merge(s, p).words;
    forall k {:trigger ws[k]} | 0 <= k < |ws| ensures ws[k].id == k && -1 <= ws[k].head < |ws| { MergedAt(s, p, k); }
  }

  /** ... and every head in its own part. */
  lemma {:induction false} HeadsStayInPart(s: Parts, p: Parts, k: nat)
    requires Shaped(s) && Shaped(p) && 1 <= k < |p.words|
    ensures var ws, n, h := Merge(s, p).words, |s.words| - 1, p.words[k].head;
            && |ws| == n + |p.words|
            && (h <= 0 ==> ws[n + k].head == h)
            && (h > 0 ==> ws[n + k].head == n + h && ws[n + h] == ShiftWord(p.words[h], n))
  {
    var n, h := |s.words| - 1, p.words[k].head;
    MergedAt(s, p, n + k);
    if h > 0 { MergedAt(s, p, n + h); }
  }

  /** A multiword token still covers the words it covered, and an empty node still follows its word. */
  lemma {:induction false} RangesStayInPart(s: Parts, p: Parts, j: nat, k: nat)
    requires Shaped(s) && Shaped(p) && j < |p.mwts| && p.mwts[j].idFirst <= k <= p.mwts[j].idLast
    ensures var r, n, m := Merge(s, p), |s.words| - 1, p.mwts[j];
            && |r.mwts| == |s.mwts| + |p.mwts| && |r.words| > n + k
            && var m' := r.mwts[|s.mwts| + j];
               && m'.idFirst <= n + k <= m'.idLast && m'.idLast - m'.idFirst == m.idLast - m.idFirst
               && m'.form == m.form && m'.feats == m.feats && m'.misc == m.misc
               && r.words[n + k] == ShiftWord(p.words[k], n)
  {
    MergedAt(s, p, |s.words| - 1 + k);
  }

  // ---------- the tree ----------

  predicate Unlinked(words: seq<Word>) { forall k | 1 <= k < |words| :: words[k].head < 0 }

  predicate NoRootWord(words: seq<Word>) { forall k | 1 <= k < |words| :: words[k].head != 0 }

  /** The merge shifts heads but not children: it keeps `children` an index of `head` exactly when the part brings no
      links at all, or, coming first, none to the root. */
  lemma {:induction false} MergeKeepsIndexExactly(s: Parts, p: Parts)
    requires Shaped(s) && Shaped(p) && ChildrenIndexHeads(s.words) && ChildrenIndexHeads(p.words)
    ensures ChildrenIndexHeads(Merge(s, p).words) <==> if |s.words| == 1 then NoRootWord(p.words) else Unlinked(p.words)
  {
    var r := Merge(s, p).words;
    if ChildrenIndexHeads(r) {
      NoRootsKept(s, p);
      if |s.words| > 1 { NoLinksKept(s, p); }
    }
    if |s.words| == 1 && NoRootWord(p.words) { FirstKeepsIndex(s, p); }
    if |s.words| > 1 && Unlinked(p.words) { UnlinkedKeepsIndex(s, p); }
  }

  lemma {:induction false} NoRootsKept(s: Parts, p: Parts)
    requires Shaped(s) && Shaped(p) && ChildrenIndexHeads(s.words) && ChildrenIndexHeads(Merge(s, p).words)
    ensures NoRootWord(p.words)
  {
    var n, r := |s.words| - 1, Merge(s, p).words;
    assert r[0] == s.words[0];
    forall k | 1 <= k < |p.words| ensures p.words[k].head != 0 {
      MergedAt(s, p, n + k);
      assert n + k in r[0].children <==> r[n + k].head == 0;
      assert n + k !in s.words[0].children;
    }
  }

  lemma {:induction false} NoLinksKept(s: Parts, p: Parts)
    requires Shaped(s) && Shaped(p) && |s.words| > 1 && NoRootWord(p.words)
    requires ChildrenIndexHeads(p.words) && ChildrenIndexHeads(Merge(s, p).words)
    ensures Unlinked(p.words)
  {
    forall k | 1 <= k < |p.words| ensures p.words[k].head < 0 {
      var h := p.words[k].head;
      assert h > 0 ==> k in p.words[h].children;
      if h > 0 { LinkBreaksIndex(s, p, h); }
    }
  }

  /** The first child of a word would have to be a child of that word once more, one part further back. */
  lemma {:induction false} LinkBreaksIndex(s: Parts, p: Parts, h: nat)
    requires Shaped(s) && Shaped(p) && |s.words| > 1 && ChildrenIndexHeads(p.words)
    requires 0 < h < |p.words| && p.words[h].children != []
    ensures !ChildrenIndexHeads(Merge(s, p).words)
  {
    var n, r := |s.words| - 1, Merge(s, p).words;
    var children := p.words[h].children;
    var c := children[0];
    assert c in children && 0 <= c < |p.words|;
    FirstIsLeast(children, c - n);
    assert c - n in children <==> 0 <= c - n < |p.words| && p.words[c - n].head == h;
    MergedAt(s, p, c);
    MergedAt(s, p, n + h);
    assert r[n + h].children == children && r[c].head != n + h;
    assert c in r[n + h].children;
  }

  lemma {:induction false} FirstIsLeast(s: seq<int>, x: int)
    requires Ascending(s)
    ensures x in s ==> s[0] <= x
  {
  }

  lemma {:induction false} FirstKeepsIndex(s: Parts, p: Parts)
    requires Shaped(s) && Shaped(p) && |s.words| == 1 && NoRootWord(p.words)
    requires ChildrenIndexHeads(s.words) && ChildrenIndexHeads(p.words)
    ensures ChildrenIndexHeads(Merge(s, p).words)
  {
    var r := Merge(s, p).words;
    assert forall k | 0 <= k < |r| :: r[k] == if k == 0 then s.words[0] else p.words[k];
    forall k, c {:trigger c in r[k].children} | 0 <= k < |r|
      ensures c in r[k].children <==> 0 <= c < |r| && r[c].head == k
    {
      if k == 0 {
        assert c in s.words[0].children <==> 0 <= c < 1 && s.words[c].head == 0;
      } else {
        assert c in p.words[k].children <==> 0 <= c < |p.words| && p.words[c].head == k;
      }
    }
  }

  lemma {:induction false} UnlinkedKeepsIndex(s: Parts, p: Parts)
    requires Shaped(s) && Shaped(p) && Unlinked(p.words)
    requires ChildrenIndexHeads(s.words) && ChildrenIndexHeads(p.words)
    ensures ChildrenIndexHeads(Merge(s, p).words)
  {
    var n, r := |s.words| - 1, Merge(s, p).words;
    assert forall k | 0 <= k < |r| :: r[k] == if k <= n then s.words[k] else ShiftWord(p.words[k - n], n);
    forall k, c {:trigger c in r[k].children} | 0 <= k < |r|
      ensures c in r[k].children <==> 0 <= c < |r| && r[c].head == k
    {
      if k <= n {
        assert c in s.words[k].children <==> 0 <= c < |s.words| && s.words[c].head == k;
      } else {
        assert c in p.words[k - n].children <==> 0 <= c < |p.words| && p.words[c].head == k - n;
      }
    }
  }

  // ---------- empty nodes ----------

  /** Both parts number an empty node at the place where they meet. */
  predicate Clash(a: seq<EmptyNode>, n: nat, b: seq<EmptyNode>) {
    a != [] && b != [] && a[|a| - 1].id == n && b[0].id == 0
  }

  lemma {:induction false} InOrderFirst(b: seq<EmptyNode>)
    requires NumberedInOrder(b) && b != []
    ensures b[0].index == 1 && b[|b| - 1].index >= 1
    decreases |b|
  {
    if |b| > 1 {
      assert b[..|b| - 1][0] == b[0];
      InOrderFirst(b[..|b| - 1]);
    }
  }

  lemma {:induction false} FirstFollows(a: seq<EmptyNode>, n: nat, b: seq<EmptyNode>)
    requires NumberedInOrder(a) && NumberedInOrder(b) && b != [] && (forall e | e in a :: e.id <= n) && b[0].id >= 0
    ensures NextEmptyNode(a, b[0].id + n, b[0].index) <==> !Clash(a, n, b)
  {
    InOrderFirst(b);
    if a != [] {
      InOrderFirst(a);
      assert a[|a| - 1] in a;
    }
  }

  /** Shifted empty nodes stay numbered in order exactly when not both parts have one where they meet. */
  lemma {:induction false} MergeKeepsEmptiesExactly(a: seq<EmptyNode>, n: nat, b: seq<EmptyNode>)
    requires NumberedInOrder(a) && NumberedInOrder(b)
    requires (forall e | e in a :: e.id <= n) && (forall e | e in b :: e.id >= 0)
    ensures NumberedInOrder(a + ShiftEmpties(b, n)) <==> !Clash(a, n, b)
    decreases |b|
  {
    if b == [] {
      assert a + ShiftEmpties(b, n) == a;
    } else {
      var before := a + ShiftEmpties(b[..|b| - 1], n);
      MergeKeepsEmptiesExactly(a, n, b[..|b| - 1]);
      LastShifted(a, n, b);
      if |b| > 1 { NextShifted(a, n, b); } else { assert before == a && b[0] in b; FirstFollows(a, n, b); }
    }
  }

  /** The shifted nodes are those before the last one, and the last one. */
  lemma {:induction false} LastShifted(a: seq<EmptyNode>, n: nat, b: seq<EmptyNode>)
    requires b != []
    ensures var before, x := a + ShiftEmpties(b[..|b| - 1], n), ShiftEmpty(b[|b| - 1], n);
            NumberedInOrder(a + ShiftEmpties(b, n)) <==> NumberedInOrder(before) && NextEmptyNode(before, x.id, x.index)
  {
    var c := a + ShiftEmpties(b, n);
    assert c[..|c| - 1] == a + ShiftEmpties(b[..|b| - 1], n) && c[|c| - 1] == ShiftEmpty(b[|b| - 1], n);
  }

  lemma {:induction false} NextShifted(a: seq<EmptyNode>, n: nat, b: seq<EmptyNode>)
    requires |b| > 1 && NumberedInOrder(b)
    ensures NextEmptyNode(a + ShiftEmpties(b[..|b| - 1], n), b[|b| - 1].id + n, b[|b| - 1].index)
    ensures Clash(a, n, b[..|b| - 1]) <==> Clash(a, n, b)
  {
    var before := a + ShiftEmpties(b[..|b| - 1], n);
    assert before[|before| - 1] == ShiftEmpty(b[|b| - 2], n) && b[..|b| - 1][0] == b[0];
    assert b[..|b| - 1][|b| - 2] == b[|b| - 2];
  }

  // Two ways in which a merge breaks the tree, with parts as only a foreign inner reader gives them: the wrapped
  // tokenizers of the library find neither heads nor empty nodes.

  /** A word under the root, merged into an empty sentence, is no child of the root. */
  lemma {:induction false} MergeLosesChild()
    ensures var p := Parts([ROOT.(children := [1]), NewWord(1, "a").(head := 0)], [], []);
            && Shaped(NOTHING) && Shaped(p) && ChildrenIndexHeads(NOTHING.words) && ChildrenIndexHeads(p.words)
            && !ChildrenIndexHeads(Merge(NOTHING, p).words)
  {
    var ws := [ROOT.(children := [1]), NewWord(1, "a").(head := 0)];
    OneChild(ws);
    assert ws[1].head == 0;
    MergeKeepsIndexExactly(NOTHING, Parts(ws, [], []));
  }

  lemma {:induction false} OneChild(ws: seq<Word>)
    requires |ws| == 2 && ws[0].children == [1] && ws[1].children == [] && ws[0].head == -1 && ws[1].head == 0
    ensures ChildrenIndexHeads(ws)
  {
  }

  /** An empty node before the first word of a part repeats the number of one after the last word before. */
  lemma {:induction false} MergeRepeatsEmptyNode(e: EmptyNode)
    requires e.id == 1 && e.index == 1
    ensures var b := e.(id := 0);
            NumberedInOrder([e]) && NumberedInOrder([b]) && !NumberedInOrder([e] + ShiftEmpties([b], 1))
  {
    assert [e][..0] == [] && [e.(id := 0)][..0] == [];
    MergeKeepsEmptiesExactly([e], 1, [e.(id := 0)]);
  }

  // ---------- the procedures ----------

  function MergeAll(s: Parts, ps: seq<Parts>): (r: Parts)
    requires |s.words| >= 1 && forall p | p in ps :: |p.words| >= 1
    ensures |r.words| >= 1
    decreases |ps|
  {
    if ps == [] then s else MergeAll(Merge(s, ps[0]), ps[1..])
  }

  /** The parts a tokenizer finds: shaped, without links. */
  ghost predicate Tokenized(p: Parts) { Shaped(p) && Unlinked(p.words) && ChildrenIndexHeads(p.words) }

  /** A word without its number and head. */
  function Content(w: Word): Word { w.(id := 0, head := -1) }

  /** The words of a part behind the root. */
  function OwnWords(p: Parts): (r: seq<Word>)
    requires |p.words| >= 1
    ensures |r| == |p.words| - 1
  {
    seq(|p.words| - 1, k requires 0 <= k < |p.words| - 1 => Content(p.words[k + 1]))
  }

  function AllWords(ps: seq<Parts>): seq<Word>
    requires forall p | p in ps :: |p.words| >= 1
    decreases |ps|
  {
    if ps == [] then [] else OwnWords(ps[0]) + AllWords(ps[1..])
  }

  lemma {:induction false} MergeWords(s: Parts, p: Parts)
    requires |s.words| >= 1 && |p.words| >= 1
    ensures OwnWords(Merge(s, p)) == OwnWords(s) + OwnWords(p)
  {
    var a, b := OwnWords(Merge(s, p)), OwnWords(s) + OwnWords(p);
    var n := |s.words| - 1;
    forall k | 0 <= k < |a| ensures k < |b| && a[k] == b[k] {
      MergedAt(s, p, k + 1);
      if k >= n {
        var w := p.words[k + 1 - n];
        assert Content(ShiftWord(w, n)) == Content(w) && b[k] == OwnWords(p)[k - n];
      }
    }
  }

  /** Merging keeps all words, whole but for numbers and heads, in order. */
  lemma {:induction false} MergeAllWords(s: Parts, ps: seq<Parts>)
    requires |s.words| >= 1 && forall p | p in ps :: |p.words| >= 1
    ensures OwnWords(MergeAll(s, ps)) == OwnWords(s) + AllWords(ps)
    decreases |ps|
  {
    if ps == [] {
      assert OwnWords(s) + [] == OwnWords(s);
    } else {
      MergeWords(s, ps[0]);
      MergeAllWords(Merge(s, ps[0]), ps[1..]);
      Assoc(OwnWords(s), OwnWords(ps[0]), AllWords(ps[1..]));
    }
  }

  /** Over any number of parts, as tokenizers find them, the sentence stays shaped, its children index its heads,
      and its words are the words of all parts in order. */
  lemma {:induction false} MergeAllKeeps(s: Parts, ps: seq<Parts>)
    requires Shaped(s) && ChildrenIndexHeads(s.words) && forall p | p in ps :: Tokenized(p)
    ensures forall p | p in ps :: |p.words| >= 1
    ensures Shaped(MergeAll(s, ps)) && ChildrenIndexHeads(MergeAll(s, ps).words)
    ensures OwnWords(MergeAll(s, ps)) == OwnWords(s) + AllWords(ps)
    decreases |ps|
  {
    assert forall p | p in ps :: |p.words| >= 1;
    MergeAllWords(s, ps);
    if ps != [] {
      var p := ps[0];
      assert p in ps && forall q | q in ps[1..] :: q in ps;
      MergeKeepsShape(s, p);
      MergeKeepsIndexExactly(s, p);
      MergeAllKeeps(Merge(s, p), ps[1..]);
    }
  }

  /** What the lines of a text are made into until a sentence has a word; `tokenize` is the inner tokenizer. */
  function NextMerged(tokenize: string -> seq<Parts>, s: Parts, text: string): (Parts, string)
    requires |s.words| >= 1 && forall line, p | p in tokenize(line) :: |p.words| >= 1
    decreases |text|
  {
    if text == "" || |s.words| > 1 then (s, text)
    else
      NextLineCuts(text);
      var line := NextLine(text);
      NextMerged(tokenize, MergeAll(s, tokenize(line.Taken())), line.rest)
  }

  function Together(lines: seq<string>): string { if lines == [] then "" else lines[0] + Together(lines[1..]) }

  /** The lines are tokenized to nothing, all but perhaps the last one. */
  ghost predicate Skipped(tokenize: string -> seq<Parts>, lines: seq<string>)
    requires forall line, p | p in tokenize(line) :: |p.words| >= 1
    decreases |lines|
  {
    |lines| <= 1 || (AllWords(tokenize(lines[0])) == [] && Skipped(tokenize, lines[1..]))
  }

  /** What is read of a text: its first lines, each with the line breaks around it, up to the first one on which a word
      is found, and exactly the words of that line. */
  lemma {:induction false} NextMergedMeans(tokenize: string -> seq<Parts>, s: Parts, text: string)
    returns (lines: seq<string>)
    requires |s.words| == 1 && forall line, p | p in tokenize(line) :: |p.words| >= 1
    ensures var (r, rest) := NextMerged(tokenize, s, text);
            && |r.words| >= 1 && text == Together(lines) + rest && Skipped(tokenize, lines)
            && (|r.words| == 1 ==> rest == "")
            && OwnWords(r) == if lines == [] then [] else AllWords(tokenize(lines[|lines| - 1]))
    decreases |text|
  {
    lines := [];
    if text != "" {
      NextLineCuts(text);
      var line, later := NextLine(text).Taken(), NextLine(text).rest;
      var next := MergeAll(s, tokenize(line));
      MergeAllWords(s, tokenize(line));
      assert OwnWords(s) + AllWords(tokenize(line)) == AllWords(tokenize(line));
      lines := [line];
      if |next.words| == 1 && later != "" {
        var more := NextMergedMeans(tokenize, next, later);
        lines := [line] + more;
        assert lines[1..] == more;
        Assoc(line, Together(more), NextMerged(tokenize, next, later).1);
      } else {
        assert lines[1..] == [] && line + "" == line;
      }
    }
  }

  ghost function Value(s: Sentence): Parts
    reads s
  {
    Parts(s.words, s.multiwordTokens, s.emptyNodes)
  }

  /** Appends a partial sentence: words with shifted ids and heads, then multiword tokens, then empty nodes. */
  method Append(s: Sentence, p: Parts)
    requires |s.words| >= 1 && |p.words| >= 1
    modifies s
    ensures Value(s) == Merge(old(Value(s)), p)
  {
    var n := |s.words| - 1;
    ghost var words, mwts, empties := s.words, s.multiwordTokens, s.emptyNodes;
    for i := 1 to |p.words|
      invariant s.words == words + ShiftWords(p.words[1..i], n)
      invariant s.multiwordTokens == mwts && s.emptyNodes == empties
    {
      s.words := s.words + [p.words[i]];
      var last := |s.words| - 1;
      s.words := s.words[last := s.words[last].(id := s.words[last].id + n)];
      if s.words[last].head > 0 { s.words := s.words[last := s.words[last].(head := s.words[last].head + n)]; }
      assert ShiftWords(p.words[1..i + 1], n) == ShiftWords(p.words[1..i], n) + [ShiftWord(p.words[i], n)];
    }
    AppendRanges(s, p.mwts, n);
    AppendEmpties(s, p.empties, n);
  }

  method AppendRanges(s: Sentence, ms: seq<MultiwordToken>, n: nat)
    modifies s`multiwordTokens
    ensures s.multiwordTokens == old(s.multiwordTokens) + ShiftRanges(ms, n)
  {
    for i := 0 to |ms|
      invariant s.multiwordTokens == old(s.multiwordTokens) + ShiftRanges(ms[..i], n)
    {
      assert ShiftRanges(ms[..i + 1], n) == ShiftRanges(ms[..i], n) + [ShiftRange(ms[i], n)];
      s.multiwordTokens := s.multiwordTokens + [ShiftRange(ms[i], n)];
    }
    assert ms[..|ms|] == ms;
  }

  method AppendEmpties(s: Sentence, es: seq<EmptyNode>, n: nat)
    modifies s`emptyNodes
    ensures s.emptyNodes == old(s.emptyNodes) + ShiftEmpties(es, n)
  {
    for i := 0 to |es|
      invariant s.emptyNodes == old(s.emptyNodes) + ShiftEmpties(es[..i], n)
    {
      assert ShiftEmpties(es[..i + 1], n) == ShiftEmpties(es[..i], n) + [ShiftEmpty(es[i], n)];
      s.emptyNodes := s.emptyNodes + [ShiftEmpty(es[i], n)];
    }
    assert es[..|es|] == es;
  }

  class PresegmentedTokenizer {
    var text: string

    constructor (text: string)
      ensures this.text == text
    {
      this.text := text;
    }

    /** Reads lines until a sentence has a word. */
    method NextSentence(tokenize: string -> seq<Parts>, s: Sentence) returns (ok: bool)
      requires forall line, p | p in tokenize(line) :: |p.words| >= 1
      modifies this, s
      ensures (Value(s), text) == NextMerged(tokenize, NOTHING, old(text)) && (ok <==> |s.words| > 1)
    {
      s.Clear();
      while text != "" && |s.words| == 1
        invariant |s.words| >= 1
        invariant NextMerged(tokenize, Value(s), text) == NextMerged(tokenize, NOTHING, old(text))
        decreases |text|
      {
        NextLineCuts(text);
        var line := TakeLine();
        AppendAll(s, tokenize(line));
      }
      ok := |s.words| > 1;
    }

    static method AppendAll(s: Sentence, ps: seq<Parts>)
      requires |s.words| >= 1 && forall p | p in ps :: |p.words| >= 1
      modifies s
      ensures Value(s) == MergeAll(old(Value(s)), ps)
    {
      for i := 0 to |ps|
        invariant |s.words| >= 1 && MergeAll(Value(s), ps[i..]) == MergeAll(old(Value(s)), ps)
      {
        assert ps[i..][0] == ps[i] && ps[i..][1..] == ps[i + 1..];
        Append(s, ps[i]);
      }
    }

    /** The three loops that find the line with the line breaks around it. */
    method TakeLine() returns (line: string)
      modifies this
      ensures line == NextLine(old(text)).Taken() && text == NextLine(old(text)).rest
    {
      var a := CountBreaks(text, 0);
      var b := CountOthers(text, a);
      var c := CountBreaks(text, b);
      assert text[0..] == text;
      NextLineAt(text, a, b, c);
      line := text[..c];
      text := text[c..];
    }

    static method CountOthers(text: string, from: nat) returns (k: nat)
      requires from <= |text|
      ensures k == from + LineLength(text[from..])
    {
      k := from;
      while k < |text| && !AtBreak(text[k])
        invariant from <= k <= |text|
        invariant k + LineLength(text[k..]) == from + LineLength(text[from..])
      {
        assert text[k..][1..] == text[k + 1..];
        k := k + 1;
      }
    }

    static method CountBreaks(text: string, from: nat) returns (k: nat)
      requires from <= |text|
      ensures k == from + BreakLength(text[from..])
    {
      k := from;
      while k < |text| && AtBreak(text[k])
        invariant from <= k <= |text|
        invariant k + BreakLength(text[k..]) == from + BreakLength(text[from..])
      {
        assert text[k..][1..] == text[k + 1..];
        k := k + 1;
      }
    }
  }
}
