/** The data the evaluator compares, src/model/evaluator.cpp:226-291. */
module EvaluationData {
  import opened Sentences
  import opened Sequences
  import opened Alignment

  // Sentences flattened into tokens and words over one sequence of non-space characters, and the F1 counts over two
  // such sequences. Forms are sequences of code points here; `lower` stands for unicode::lowercase.

  function NonSpace(form: string): (r: string)
    ensures forall c | c in r :: c != ' '
    ensures r == [] <==> forall c | c in form :: c == ' '
  {
    if form == "" then ""
    else
      assert form == [form[0]] + form[1..];
      assert form[0] in form && forall c :: c in form <==> c == form[0] || c in form[1..];
      if form[0] != ' ' then [form[0]] + NonSpace(form[1..]) else NonSpace(form[1..])
  }

  /** Together these two say which characters are kept, and in which order. */
  lemma {:induction false} NonSpaceOne(c: char)
    ensures NonSpace([c]) == if c == ' ' then "" else [c]
  {
    assert [c][1..] == "";
  }

  lemma {:induction false} NonSpaceAppend(a: string, b: string)
    ensures NonSpace(a + b) == NonSpace(a) + NonSpace(b)
    decreases |a|
  {
    if a == "" {
      assert a + b == b;
    } else {
      assert (a + b)[1..] == a[1..] + b;
      NonSpaceAppend(a[1..], b);
    }
  }

  function Map(lower: char -> char, form: string): (r: string)
    ensures |r| == |form| && forall i | 0 <= i < |form| :: r[i] == lower(form[i])
  {
    seq(|form|, i requires 0 <= i < |form| => lower(form[i]))
  }

  /** The part of a dependency relation before its first colon. */
  function UniversalPart(deprel: string): (r: string)
    ensures ':' !in r && (deprel == r || r + ":" <= deprel)
  {
    if deprel == "" || deprel[0] == ':' then "" else [deprel[0]] + UniversalPart(deprel[1..])
  }

  /** Absolute id and head, lowercased form, universal relation. */
  function MakeWord(lower: char -> char, id: int, w: Word): Word {
    w.(id := id, head := if w.head != 0 then id + (w.head - w.id) else 0,
       form := Map(lower, w.form), deprel := UniversalPart(w.deprel))
  }

  /** What becomes of a word: the head keeps its distance, the form is lowercased character by character, the relation
      ends before its first colon, and all else stays. */
  lemma {:induction false} WordMeans(lower: char -> char, id: int, w: Word)
    ensures var r := MakeWord(lower, id, w);
            && r.id == id && (if w.head == 0 then r.head == 0 else r.head - r.id == w.head - w.id)
            && |r.form| == |w.form| && (forall c | 0 <= c < |w.form| :: r.form[c] == lower(w.form[c]))
            && ':' !in r.deprel && (r.deprel == w.deprel || r.deprel + ":" <= w.deprel)
            && r == w.(id := r.id, head := r.head, form := r.form, deprel := r.deprel)
  {
  }

  datatype Data = Data(
    chars: string, sentences: seq<(nat, nat)>, tokens: seq<(nat, nat)>,
    multiwords: seq<(nat, string)>, words: seq<WordData>)

  function AddWords(lower: char -> char, ws: seq<Word>, start: nat, end: nat, isMultiword: bool,
      offset: nat): (r: seq<WordData>)
    ensures |r| == |ws|
    ensures forall k | 0 <= k < |ws| ::
              r[k] == WordData(start, end, isMultiword, MakeWord(lower, offset + k + 1, ws[k]))
  {
    seq(|ws|, k requires 0 <= k < |ws| => WordData(start, end, isMultiword, MakeWord(lower, offset + k + 1, ws[k])))
  }

  /** A multiword token's label: its form followed by the lowercased forms of its words. */
  function Label(lower: char -> char, form: string, ws: seq<Word>): string {
    if ws == [] then form
    else Label(lower, form, ws[..|ws| - 1]) + " " + Map(lower, ws[|ws| - 1].form)
  }

  function LowerForms(lower: char -> char, ws: seq<Word>): (r: seq<string>)
    ensures |r| == |ws| && forall k | 0 <= k < |ws| :: r[k] == Map(lower, ws[k].form)
  {
    seq(|ws|, k requires 0 <= k < |ws| => Map(lower, ws[k].form))
  }

  /** Unless forms hold spaces, two labels are equal only for equal forms and equal lowercased words. */
  lemma {:induction false} LabelsDiffer(lower: char -> char, form: string, ws: seq<Word>, other: string, vs: seq<Word>)
    requires ' ' !in form && ' ' !in other
    requires forall k | 0 <= k < |ws| :: ' ' !in LowerForms(lower, ws)[k]
    requires forall k | 0 <= k < |vs| :: ' ' !in LowerForms(lower, vs)[k]
    ensures Label(lower, form, ws) == Label(lower, other, vs) <==>
              form == other && LowerForms(lower, ws) == LowerForms(lower, vs)
    decreases |ws|
  {
    if ws != [] && vs != [] {
      var n, m := |ws| - 1, |vs| - 1;
      assert LowerForms(lower, ws) == LowerForms(lower, ws[..n]) + [Map(lower, ws[n].form)];
      assert LowerForms(lower, vs) == LowerForms(lower, vs[..m]) + [Map(lower, vs[m].form)];
      LabelsDiffer(lower, form, ws[..n], other, vs[..m]);
      assert ' ' !in LowerForms(lower, ws)[n] && ' ' !in LowerForms(lower, vs)[m];
      LastPart(Label(lower, form, ws[..n]), Map(lower, ws[n].form),
               Label(lower, other, vs[..m]), Map(lower, vs[m].form));
      LastEqual(LowerForms(lower, ws[..n]), Map(lower, ws[n].form), LowerForms(lower, vs[..m]), Map(lower, vs[m].form));
    } else if ws != [] {
      assert Label(lower, form, ws)[|Label(lower, form, ws[..|ws| - 1])|] == ' ';
    } else if vs != [] {
      assert Label(lower, other, vs)[|Label(lower, other, vs[..|vs| - 1])|] == ' ';
    }
  }

  lemma {:induction false} LastEqual<T>(xs: seq<T>, x: T, ys: seq<T>, y: T)
    ensures xs + [x] == ys + [y] <==> xs == ys && x == y
  {
    if xs + [x] == ys + [y] {
      assert xs == (xs + [x])[..|xs|] && ys == (ys + [y])[..|ys|] && x == (xs + [x])[|xs|] && y == (ys + [y])[|ys|];
    }
  }

  lemma {:induction false} LastPart(x: string, a: string, y: string, b: string)
    requires ' ' !in a && ' ' !in b
    ensures x + " " + a == y + " " + b <==> x == y && a == b
  {
    var s, t := x + " " + a, y + " " + b;
    if s == t {
      LastSpace(x, a, y, b);
      LastSpace(y, b, x, a);
      assert x == s[..|x|] && y == t[..|y|] && a == s[|x| + 1..] && b == t[|y| + 1..];
    }
  }

  lemma {:induction false} LastSpace(x: string, a: string, y: string, b: string)
    requires ' ' !in b && x + " " + a == y + " " + b
    ensures |x| <= |y|
  {
    var s := y + " " + b;
    assert (x + " " + a)[|x|] == ' ';
    assert forall j | |y| < j < |s| :: s[j] == b[j - |y| - 1];
  }

  /** One surface token appended to the data. */
  function AddToken(lower: char -> char, d: Data, words: seq<Word>, t: Surface): Data
    requires t.first <= t.last < |words|
  {
    var start := |d.chars|;
    var chars := d.chars + NonSpace(t.form);
    var ws := words[t.first..t.last + 1];
    Data(chars, d.sentences, d.tokens + [(start, |chars|)],
         if t.isMultiword then d.multiwords + [(start, Label(lower, t.form, ws))] else d.multiwords,
         d.words + AddWords(lower, ws, start, |chars|, t.isMultiword, |d.words|))
  }

  /** Surface tokens appended from word i on. */
  function AddTokens(lower: char -> char, d: Data, words: seq<Word>, ts: seq<Surface>, i: nat): Data
    requires Tiling(ts, i, |words|)
    decreases |ts|
  {
    if ts == [] then d
    else AddTokens(lower, AddToken(lower, d, words, ts[0]), words, ts[1..], ts[0].last + 1)
  }

  /** The tokens from word i on, multiword tokens from the j-th on. */
  function AddFrom(lower: char -> char, d: Data, words: seq<Word>, mwts: seq<MultiwordToken>, i: nat, j: nat): Data
    requires OrderedRanges(|words|, mwts) && i <= |words|
  {
    SurfaceTiles(words, mwts, i, j);
    AddTokens(lower, d, words, SurfaceFrom(words, mwts, i, j), i)
  }

  lemma {:induction false} AddFromStep(lower: char -> char, d: Data, words: seq<Word>, mwts: seq<MultiwordToken>,
      i: nat, j: nat)
    requires OrderedRanges(|words|, mwts) && i <= |words|
    ensures i == |words| ==> AddFrom(lower, d, words, mwts, i, j) == d
    ensures i < |words| ==>
              var t := SurfaceAt(words, mwts, i, j);
              && i <= t.last < |words|
              && AddFrom(lower, d, words, mwts, i, j) ==
                 AddFrom(lower, AddToken(lower, d, words, t), words, mwts, t.last + 1,
                         if t.isMultiword then j + 1 else j)
  {
    if i < |words| {
      SurfaceStep(words, mwts, i, j);
      SurfaceTiles(words, mwts, i, j);
      AddTokensStep(lower, d, words, SurfaceFrom(words, mwts, i, j), i);
    }
  }

  /** What is reached from d by adding the tokens from word i on. */
  ghost predicate Reaches(lower: char -> char, d: Data, words: seq<Word>, mwts: seq<MultiwordToken>, i: nat, j: nat,
      all: Data) {
    OrderedRanges(|words|, mwts) && i <= |words| && AddFrom(lower, d, words, mwts, i, j) == all
  }

  lemma {:induction false} ReachesStep(lower: char -> char, d: Data, next: Data, words: seq<Word>,
      mwts: seq<MultiwordToken>,
                                       i: nat, j: nat, i': nat, j': nat, all: Data)
    requires Reaches(lower, d, words, mwts, i, j, all) && i < |words|
    requires var t := SurfaceAt(words, mwts, i, j);
             i <= t.last < |words| && next == AddToken(lower, d, words, t)
             && i' == t.last + 1 && j' == if t.isMultiword then j + 1 else j
    ensures Reaches(lower, next, words, mwts, i', j', all)
  {
    AddFromStep(lower, d, words, mwts, i, j);
  }

  lemma {:induction false} AddTokensStep(lower: char -> char, d: Data, words: seq<Word>, ts: seq<Surface>, i: nat)
    requires Tiling(ts, i, |words|) && ts != []
    ensures i <= ts[0].last < |words| && Tiling(ts[1..], ts[0].last + 1, |words|)
    ensures AddTokens(lower, d, words, ts, i) ==
            AddTokens(lower, AddToken(lower, d, words, ts[0]), words, ts[1..], ts[0].last + 1)
  {
  }

  function AddSentence(lower: char -> char, d: Data, words: seq<Word>, mwts: seq<MultiwordToken>): Data
    requires |words| >= 1 && OrderedRanges(|words|, mwts)
  {
    var r := AddFrom(lower, d, words, mwts, 1, 0);
    r.(sentences := r.sentences + [(|d.chars|, |r.chars|)])
  }

  /** The words of a multiword token appended up to the k-th. */
  ghost predicate Filled(lower: char -> char, before: seq<WordData>, ws: seq<Word>, first: nat, k: nat, start: nat,
      end: nat, words: seq<WordData>) {
    first <= k <= |ws| && words == before + AddWords(lower, ws[first..k], start, end, true, |before|)
  }

  lemma {:induction false} FilledStep(lower: char -> char, before: seq<WordData>, ws: seq<Word>, first: nat, k: nat,
      start: nat, end: nat, words: seq<WordData>, more: seq<WordData>)
    requires k < |ws| && Filled(lower, before, ws, first, k, start, end, words)
    requires more == words + [WordData(start, end, true, MakeWord(lower, |words| + 1, ws[k]))]
    ensures Filled(lower, before, ws, first, k + 1, start, end, more)
  {
  }

  lemma {:induction false} LabelStep(lower: char -> char, form: string, ws: seq<Word>, first: nat, k: nat)
    requires first <= k < |ws|
    ensures Label(lower, form, ws[first..k + 1]) == Label(lower, form, ws[first..k]) + " " + Map(lower, ws[k].form)
  {
    assert ws[first..k + 1][..k - first] == ws[first..k];
  }

  class EvaluationData {
    var chars: string
    var sentences: seq<(nat, nat)>
    var tokens: seq<(nat, nat)>
    var multiwords: seq<(nat, string)>
    var words: seq<WordData>

    ghost function Value(): Data
      reads this
    {
      Data(chars, sentences, tokens, multiwords, words)
    }

    constructor ()
      ensures Value() == Data("", [], [], [], [])
    {
      chars, sentences, tokens, multiwords, words := "", [], [], [], [];
    }

    method Append(lower: char -> char, s: Sentence)
      requires |s.words| >= 1 && OrderedRanges(|s.words|, s.multiwordTokens)
      modifies this
      ensures Value() == AddSentence(lower, old(Value()), s.words, s.multiwordTokens)
    {
      var sentenceStart := |chars|;
      var ws, mwts := s.words, s.multiwordTokens;
      var i: nat, j: nat := 1, 0;
      ghost var d := Value();
      ghost var all := AddFrom(lower, d, ws, mwts, 1, 0);
      while i < |ws|
        invariant i <= |ws| && sentences == old(sentences)
        invariant Reaches(lower, Value(), ws, mwts, i, j, all)
        decreases |ws| - i
      {
        i, j := AppendAt(lower, ws, mwts, i, j, all);
      }
      AddFromStep(lower, Value(), ws, mwts, i, j);
      sentences := sentences + [(sentenceStart, |chars|)];
    }

    /** The body of the loop: the token at word i, with all its words. */
    method AppendAt(lower: char -> char, ws: seq<Word>, mwts: seq<MultiwordToken>, i: nat, j: nat, ghost all: Data)
      returns (i': nat, j': nat)
      requires i < |ws| && Reaches(lower, Value(), ws, mwts, i, j, all)
      modifies this`chars, this`tokens, this`words, this`multiwords
      ensures i < i' <= |ws| && Reaches(lower, Value(), ws, mwts, i', j', all)
    {
      ghost var d := Value();
      ghost var t := SurfaceAt(ws, mwts, i, j);
      var multiword := j < |mwts| && mwts[j].idFirst == i;
      var last := if multiword then mwts[j].idLast else i;
      AppendToken(lower, ws, if multiword then mwts[j].form else ws[i].form, i, last, multiword, t);
      i' := last + 1;
      j' := if multiword then j + 1 else j;
      ReachesStep(lower, d, Value(), ws, mwts, i, j, i', j', all);
    }

    /** The body of the loop for one token, over the words first to last. */
    method AppendToken(lower: char -> char, ws: seq<Word>, form: string, first: nat, last: nat, isMultiword: bool,
        ghost t: Surface)
      requires first <= last < |ws| && (isMultiword || first == last)
      requires t.first == first && t.last == last && t.isMultiword == isMultiword && t.form == form
      modifies this`chars, this`tokens, this`words, this`multiwords
      ensures Value() == AddToken(lower, old(Value()), ws, t)
    {
      var start := |chars|;
      AppendNonSpace(form);
      tokens := tokens + [(start, |chars|)];
      if isMultiword {
        AppendMultiword(lower, ws, form, first, last, start, |chars|);
      } else {
        AppendPlain(lower, ws, first, start, |chars|);
      }
    }

    method AppendPlain(lower: char -> char, ws: seq<Word>, first: nat, start: nat, end: nat)
      requires first < |ws|
      modifies this`words
      ensures words == old(words) + AddWords(lower, ws[first..first + 1], start, end, false, |old(words)|)
    {
      words := words + [WordData(start, end, false, MakeWord(lower, |words| + 1, ws[first]))];
    }

    method AppendMultiword(lower: char -> char, ws: seq<Word>, form: string, first: nat, last: nat, start: nat,
        end: nat)
      requires first <= last < |ws|
      modifies this`words, this`multiwords
      ensures words == old(words) + AddWords(lower, ws[first..last + 1], start, end, true, |old(words)|)
      ensures multiwords == old(multiwords) + [(start, Label(lower, form, ws[first..last + 1]))]
    {
      var tag := form;
      for k := first to last + 1
        invariant Filled(lower, old(words), ws, first, k, start, end, words)
        invariant tag == Label(lower, form, ws[first..k])
        invariant multiwords == old(multiwords)
      {
        ghost var before := words;
        LabelStep(lower, form, ws, first, k);
        words := words + [WordData(start, end, true, MakeWord(lower, |words| + 1, ws[k]))];
        FilledStep(lower, old(words), ws, first, k, start, end, before, words);
        tag := tag + " " + Map(lower, ws[k].form);
      }
      multiwords := multiwords + [(start, tag)];
    }

    method AppendNonSpace(form: string)
      modifies this`chars
      ensures chars == old(chars) + NonSpace(form)
    {
      for k := 0 to |form|
        invariant chars + NonSpace(form[k..]) == old(chars) + NonSpace(form)
      {
        assert form[k..][1..] == form[k + 1..];
        if form[k] != ' ' { chars := chars + [form[k]]; }
      }
    }
  }

  // ---------- what every run of Append keeps ----------

  /** Spans that follow each other without gaps from 0 to n. */
  ghost predicate Tiles(spans: seq<(nat, nat)>, n: nat) {
    && (forall k | 0 <= k < |spans| :: spans[k].0 <= spans[k].1)
    && (forall j, k | 0 <= j < |spans| && 0 <= k < |spans| && k == j + 1 :: spans[j].1 == spans[k].0)
    && if spans == [] then n == 0 else spans[0].0 == 0 && n == spans[|spans| - 1].1
  }

  lemma {:induction false} TilesExtend(spans: seq<(nat, nat)>, n: nat, m: nat)
    requires Tiles(spans, n) && n <= m
    ensures Tiles(spans + [(n, m)], m)
  {
  }

  /** Words in text order, each ending at or before n. */
  ghost predicate WordsInOrder(ws: seq<WordData>, n: nat) {
    Laid(ws) && forall i | 0 <= i < |ws| :: ws[i].end <= n
  }

  lemma {:induction false} WordsInOrderExtend(ws: seq<WordData>, n: nat, m: nat, more: seq<WordData>, isMultiword: bool)
    requires WordsInOrder(ws, n) && n <= m && (isMultiword || |more| <= 1)
    requires forall k | 0 <= k < |more| :: more[k].start == n && more[k].end == m && more[k].isMultiword == isMultiword
    ensures WordsInOrder(ws + more, m)
  {
  }

  /** The layout apart from the sentence spans, which are closed at the end of a sentence. */
  ghost predicate OpenLayout(d: Data) {
    && Tiles(d.tokens, |d.chars|) && WordsInOrder(d.words, |d.chars|) && DenseIds(d.words)
    && (forall c | c in d.chars :: c != ' ')
  }

  ghost predicate Layout(d: Data) {
    OpenLayout(d) && Tiles(d.sentences, |d.chars|)
  }

  lemma {:induction false} AddTokenKeepsLayout(lower: char -> char, d: Data, words: seq<Word>, t: Surface)
    requires OpenLayout(d) && t.first <= t.last < |words| && (t.first == t.last || t.isMultiword)
    ensures OpenLayout(AddToken(lower, d, words, t))
  {
    var r := AddToken(lower, d, words, t);
    TilesExtend(d.tokens, |d.chars|, |r.chars|);
    var more := AddWords(lower, words[t.first..t.last + 1], |d.chars|, |r.chars|, t.isMultiword, |d.words|);
    WordsInOrderExtend(d.words, |d.chars|, |r.chars|, more, t.isMultiword);
  }

  lemma {:induction false} AddTokensKeepLayout(lower: char -> char, d: Data, words: seq<Word>, ts: seq<Surface>, i: nat)
    requires OpenLayout(d) && Tiling(ts, i, |words|)
    ensures var r := AddTokens(lower, d, words, ts, i);
            OpenLayout(r) && |d.chars| <= |r.chars| && r.sentences == d.sentences
    decreases |ts|
  {
    if ts != [] {
      AddTokenKeepsLayout(lower, d, words, ts[0]);
      AddTokensKeepLayout(lower, AddToken(lower, d, words, ts[0]), words, ts[1..], ts[0].last + 1);
    }
  }

  // ---------- what stands at the spans ----------

  ghost predicate Continued(d: Data, r: Data) { d.chars <= r.chars && d.tokens <= r.tokens && d.words <= r.words }

  /** From the a-th token and the b-th word on, which is word i of the sentence, the data spells the given tokens: the
      span of each holds its form without spaces, and its words have that span. */
  ghost predicate Spells(r: Data, a: nat, b: nat, i: nat, ts: seq<Surface>) {
    forall m | 0 <= m < |ts| :: i <= ts[m].first && SpellsOne(r, a + m, b + ts[m].first - i, ts[m])
  }

  function Count(t: Surface): nat { if t.first <= t.last then t.last + 1 - t.first else 0 }

  ghost predicate SpellsOne(r: Data, a: nat, b: nat, t: Surface) {
    && a < |r.tokens| && r.tokens[a].0 <= r.tokens[a].1 <= |r.chars| && b + Count(t) <= |r.words|
    && r.chars[r.tokens[a].0..r.tokens[a].1] == NonSpace(t.form)
    && forall k | b <= k < b + Count(t) ::
         (r.words[k].start, r.words[k].end) == r.tokens[a] && r.words[k].isMultiword == t.isMultiword
  }

  lemma {:induction false} AddTokenSpells(lower: char -> char, d: Data, words: seq<Word>, t: Surface, r: Data)
    requires t.first <= t.last < |words| && Continued(AddToken(lower, d, words, t), r)
    ensures SpellsOne(r, |d.tokens|, |d.words|, t)
  {
    var next := AddToken(lower, d, words, t);
    var added := AddWords(lower, words[t.first..t.last + 1], |d.chars|, |next.chars|, t.isMultiword, |d.words|);
    assert r.tokens[|d.tokens|] == next.tokens[|d.tokens|] == (|d.chars|, |next.chars|);
    assert r.chars[..|next.chars|] == next.chars;
    assert r.chars[|d.chars|..|next.chars|] == next.chars[|d.chars|..] == NonSpace(t.form);
    forall k | |d.words| <= k < |d.words| + Count(t) ensures r.words[k] == added[k - |d.words|] {
      assert r.words[k] == next.words[k];
    }
  }

  /** The k-th token leads from one data to the next. */
  ghost predicate Linked(lower: char -> char, words: seq<Word>, ts: seq<Surface>, ds: seq<Data>, k: nat) {
    && k < |ts| && k + 1 < |ds| && ts[k].first <= ts[k].last < |words|
    && ds[k + 1] == AddToken(lower, ds[k], words, ts[k])
  }

  ghost predicate Chain(lower: char -> char, words: seq<Word>, ts: seq<Surface>, ds: seq<Data>) {
    |ds| == |ts| + 1 && forall k: nat | k < |ts| :: Linked(lower, words, ts, ds, k)
  }

  lemma {:induction false} ChainOf(lower: char -> char, d: Data, words: seq<Word>, ts: seq<Surface>, i: nat)
    returns (ds: seq<Data>)
    requires Tiling(ts, i, |words|)
    ensures Chain(lower, words, ts, ds) && ds[0] == d && ds[|ts|] == AddTokens(lower, d, words, ts, i)
    decreases |ts|
  {
    if ts == [] {
      ds := [d];
    } else {
      AddTokensStep(lower, d, words, ts, i);
      var next := AddToken(lower, d, words, ts[0]);
      var later := ChainOf(lower, next, words, ts[1..], ts[0].last + 1);
      ds := [d] + later;
      LinkInFront(lower, words, ts, d, later);
    }
  }

  lemma {:induction false} LinkInFront(lower: char -> char, words: seq<Word>, ts: seq<Surface>, d: Data,
      later: seq<Data>)
    requires ts != [] && ts[0].first <= ts[0].last < |words| && Chain(lower, words, ts[1..], later)
    requires later[0] == AddToken(lower, d, words, ts[0])
    ensures Chain(lower, words, ts, [d] + later) && ([d] + later)[|ts|] == later[|ts| - 1]
  {
    forall k: nat | k < |ts| ensures Linked(lower, words, ts, [d] + later, k) {
      if k > 0 { assert Linked(lower, words, ts[1..], later, k - 1); }
    }
  }

  lemma {:induction false} AddTokenContinues(lower: char -> char, d: Data, words: seq<Word>, t: Surface)
    requires t.first <= t.last < |words|
    ensures var r := AddToken(lower, d, words, t);
            Continued(d, r) && |r.tokens| == |d.tokens| + 1 && |r.words| == |d.words| + Count(t)
  {
  }

  lemma {:induction false} ChainGrows(lower: char -> char, words: seq<Word>, ts: seq<Surface>, ds: seq<Data>, m: nat,
      n: nat)
    requires Chain(lower, words, ts, ds) && m <= n <= |ts|
    ensures Continued(ds[m], ds[n])
    decreases n
  {
    if m < n {
      ChainGrows(lower, words, ts, ds, m, n - 1);
      assert Linked(lower, words, ts, ds, n - 1);
      AddTokenContinues(lower, ds[n - 1], words, ts[n - 1]);
    }
  }

  lemma {:induction false} TilingAt(ts: seq<Surface>, i: nat, n: nat, m: nat)
    requires Tiling(ts, i, n) && m < |ts|
    ensures i <= ts[m].first && (if m == 0 then ts[m].first == i else ts[m].first == ts[m - 1].last + 1)
    decreases m
  {
    if m > 0 {
      TilingAt(ts[1..], ts[0].last + 1, n, m - 1);
      assert ts[1..][m - 1] == ts[m] && (m > 1 ==> ts[1..][m - 2] == ts[m - 1]);
    }
  }

  lemma {:induction false} ChainCounts(lower: char -> char, words: seq<Word>, ts: seq<Surface>, ds: seq<Data>, i: nat,
      m: nat)
    requires Chain(lower, words, ts, ds) && Tiling(ts, i, |words|) && m < |ts|
    ensures i <= ts[m].first
    ensures |ds[m].tokens| == |ds[0].tokens| + m && |ds[m].words| == |ds[0].words| + ts[m].first - i
    decreases m
  {
    TilingAt(ts, i, |words|, m);
    if m > 0 {
      ChainCounts(lower, words, ts, ds, i, m - 1);
      assert Linked(lower, words, ts, ds, m - 1);
      AddTokenContinues(lower, ds[m - 1], words, ts[m - 1]);
    }
  }

  lemma {:induction false} ChainSpells(lower: char -> char, words: seq<Word>, ts: seq<Surface>, ds: seq<Data>, i: nat)
    requires Chain(lower, words, ts, ds) && Tiling(ts, i, |words|)
    ensures Spells(ds[|ts|], |ds[0].tokens|, |ds[0].words|, i, ts)
  {
    forall m | 0 <= m < |ts|
      ensures i <= ts[m].first && SpellsOne(ds[|ts|], |ds[0].tokens| + m, |ds[0].words| + ts[m].first - i, ts[m])
    {
      ChainCounts(lower, words, ts, ds, i, m);
      ChainGrows(lower, words, ts, ds, m + 1, |ts|);
      assert Linked(lower, words, ts, ds, m);
      AddTokenSpells(lower, ds[m], words, ts[m], ds[|ts|]);
    }
  }

  /** The data of a sentence spells its tokens, in order, behind what was there before. */
  lemma {:induction false} AddSentenceSpells(lower: char -> char, d: Data, words: seq<Word>, mwts: seq<MultiwordToken>)
    requires |words| >= 1 && OrderedRanges(|words|, mwts)
    ensures var r := AddSentence(lower, d, words, mwts);
            && Continued(d, r) && Spells(r, |d.tokens|, |d.words|, 1, SurfaceFrom(words, mwts, 1, 0))
  {
    SurfaceTiles(words, mwts, 1, 0);
    var ts := SurfaceFrom(words, mwts, 1, 0);
    var ds := ChainOf(lower, d, words, ts, 1);
    ChainGrows(lower, words, ts, ds, 0, |ts|);
    ChainSpells(lower, words, ts, ds, 1);
    SameSpelling(ds[|ts|], AddSentence(lower, d, words, mwts), |d.tokens|, |d.words|, ts);
  }

  lemma {:induction false} SameSpelling(d: Data, r: Data, a: nat, b: nat, ts: seq<Surface>)
    requires d.chars == r.chars && d.tokens == r.tokens && d.words == r.words && Spells(d, a, b, 1, ts)
    ensures Spells(r, a, b, 1, ts)
  {
    forall m | 0 <= m < |ts| ensures 1 <= ts[m].first && SpellsOne(r, a + m, b + ts[m].first - 1, ts[m]) {
      assert SpellsOne(d, a + m, b + ts[m].first - 1, ts[m]);
    }
  }

  /** The label of a token that starts there, if it is a multiword token. */
  function LabelOf(lower: char -> char, start: nat, words: seq<Word>, t: Surface): seq<(nat, string)>
    requires t.first <= t.last < |words|
  {
    if t.isMultiword then [(start, Label(lower, t.form, words[t.first..t.last + 1]))] else []
  }

  /** The labels of the given tokens, which start where the a-th token of the data starts, and so on. */
  function LabelsOf(lower: char -> char, tokens: seq<(nat, nat)>, a: nat, words: seq<Word>, ts: seq<Surface>, i: nat)
    : seq<(nat, string)>
    requires Tiling(ts, i, |words|) && a + |ts| <= |tokens|
    decreases |ts|
  {
    if ts == [] then []
    else LabelOf(lower, tokens[a].0, words, ts[0]) + LabelsOf(lower, tokens, a + 1, words, ts[1..], ts[0].last + 1)
  }

  lemma {:induction false} AddTokensCount(lower: char -> char, d: Data, words: seq<Word>, ts: seq<Surface>, i: nat)
    requires Tiling(ts, i, |words|)
    ensures var r := AddTokens(lower, d, words, ts, i);
            && |r.tokens| == |d.tokens| + |ts| && d.tokens <= r.tokens
            && (ts != [] ==> r.tokens[|d.tokens|].0 == |d.chars|)
    decreases |ts|
  {
    if ts != [] {
      AddTokensStep(lower, d, words, ts, i);
      var next := AddToken(lower, d, words, ts[0]);
      AddTokensCount(lower, next, words, ts[1..], ts[0].last + 1);
      assert next.tokens[|d.tokens|].0 == |d.chars|;
    }
  }

  lemma {:induction false} AddTokensLabel(lower: char -> char, d: Data, words: seq<Word>, ts: seq<Surface>, i: nat,
      r: Data)
    requires Tiling(ts, i, |words|) && r == AddTokens(lower, d, words, ts, i)
    ensures |r.tokens| == |d.tokens| + |ts|
    ensures r.multiwords == d.multiwords + LabelsOf(lower, r.tokens, |d.tokens|, words, ts, i)
    decreases |ts|
  {
    AddTokensCount(lower, d, words, ts, i);
    if ts == [] {
      assert d.multiwords + [] == d.multiwords;
    } else {
      AddTokensStep(lower, d, words, ts, i);
      var next := AddTokenLabel(lower, d, words, ts[0]);
      AddTokensLabel(lower, next, words, ts[1..], ts[0].last + 1, r);
      Assoc(d.multiwords, LabelOf(lower, |d.chars|, words, ts[0]),
            LabelsOf(lower, r.tokens, |next.tokens|, words, ts[1..], ts[0].last + 1));
    }
  }

  lemma {:induction false} AddTokenLabel(lower: char -> char, d: Data, words: seq<Word>, t: Surface)
    returns (next: Data)
    requires t.first <= t.last < |words|
    ensures next == AddToken(lower, d, words, t) && |next.tokens| == |d.tokens| + 1
    ensures next.multiwords == d.multiwords + LabelOf(lower, |d.chars|, words, t)
  {
    next := AddToken(lower, d, words, t);
    assert d.multiwords + [] == d.multiwords;
  }

  /** A sentence adds the labels of all its multiword tokens, of one word or more, and no others. */
  lemma {:induction false} AddSentenceLabels(lower: char -> char, d: Data, words: seq<Word>, mwts: seq<MultiwordToken>)
    requires |words| >= 1 && OrderedRanges(|words|, mwts)
    ensures var r, ts := AddSentence(lower, d, words, mwts), SurfaceFrom(words, mwts, 1, 0);
            && Tiling(ts, 1, |words|) && |r.tokens| == |d.tokens| + |ts|
            && r.multiwords == d.multiwords + LabelsOf(lower, r.tokens, |d.tokens|, words, ts, 1)
  {
    SurfaceTiles(words, mwts, 1, 0);
    var ts := SurfaceFrom(words, mwts, 1, 0);
    AddTokensLabel(lower, d, words, ts, 1, AddTokens(lower, d, words, ts, 1));
  }

  /** Every added sentence keeps the layout: tokens and sentences tile the characters without gaps,
      words stay in text order and word ids are index plus one. */
  lemma {:induction false} AddSentenceKeepsLayout(lower: char -> char, d: Data, words: seq<Word>,
      mwts: seq<MultiwordToken>)
    requires Layout(d) && |words| >= 1 && OrderedRanges(|words|, mwts)
    ensures Layout(AddSentence(lower, d, words, mwts))
  {
    SurfaceTiles(words, mwts, 1, 0);
    var ts := SurfaceFrom(words, mwts, 1, 0);
    AddTokensKeepLayout(lower, d, words, ts, 1);
    TilesExtend(d.sentences, |d.chars|, |AddTokens(lower, d, words, ts, 1).chars|);
  }

  /** `ws` continues `before` with the words i to n - 1 of the sentence, with absolute ids. */
  ghost predicate Appended(lower: char -> char, before: seq<WordData>, words: seq<Word>, i: nat, n: nat,
      ws: seq<WordData>)
    requires i <= n <= |words|
  {
    && |ws| == |before| + n - i
    && ws[..|before|] == before
    && forall m | |before| <= m < |ws| :: ws[m].w == MakeWord(lower, m + 1, words[i + m - |before|])
  }

  lemma {:induction false} AppendedTwice(lower: char -> char, a: seq<WordData>, b: seq<WordData>, c: seq<WordData>,
      words: seq<Word>, i: nat, k: nat, n: nat)
    requires i <= k <= n <= |words|
    requires Appended(lower, a, words, i, k, b) && Appended(lower, b, words, k, n, c)
    ensures Appended(lower, a, words, i, n, c)
  {
    assert c[..|a|] == c[..|b|][..|a|];
    forall m | |a| <= m < |c| ensures c[m].w == MakeWord(lower, m + 1, words[i + m - |a|]) {
      if m < |b| { assert c[m] == c[..|b|][m]; }
    }
  }

  lemma {:induction false} AddTokenAppends(lower: char -> char, d: Data, words: seq<Word>, t: Surface)
    requires t.first <= t.last < |words|
    ensures Appended(lower, d.words, words, t.first, t.last + 1, AddToken(lower, d, words, t).words)
  {
    var start := |d.chars|;
    WordsAppended(lower, d.words, words, t.first, t.last + 1, start, start + |NonSpace(t.form)|, t.isMultiword);
  }

  lemma {:induction false} WordsAppended(lower: char -> char, before: seq<WordData>, words: seq<Word>, i: nat, n: nat,
      start: nat, end: nat, isMultiword: bool)
    requires i <= n <= |words|
    ensures Appended(lower, before, words, i, n,
                     before + AddWords(lower, words[i..n], start, end, isMultiword, |before|))
  {
    var added := AddWords(lower, words[i..n], start, end, isMultiword, |before|);
    var ws := before + added;
    forall m | |before| <= m < |ws| ensures ws[m].w == MakeWord(lower, m + 1, words[i + m - |before|]) {
      assert ws[m] == added[m - |before|];
    }
  }

  lemma {:induction false} AddTokensWords(lower: char -> char, d: Data, words: seq<Word>, ts: seq<Surface>, i: nat)
    requires Tiling(ts, i, |words|)
    ensures i <= |words|
    ensures Appended(lower, d.words, words, i, |words|, AddTokens(lower, d, words, ts, i).words)
    decreases |ts|
  {
    if ts != [] {
      var d', k := AddToken(lower, d, words, ts[0]), ts[0].last + 1;
      AddTokensWords(lower, d', words, ts[1..], k);
      AddTokenAppends(lower, d, words, ts[0]);
      AppendedTwice(lower, d.words, d'.words, AddTokens(lower, d', words, ts[1..], k).words, words, i, k, |words|);
    }
  }

  /** Adding a sentence appends exactly its words, with absolute ids and heads. */
  lemma {:induction false} AddSentenceAppends(lower: char -> char, d: Data, words: seq<Word>, mwts: seq<MultiwordToken>)
    requires |words| >= 1 && OrderedRanges(|words|, mwts)
    ensures Appended(lower, d.words, words, 1, |words|, AddSentence(lower, d, words, mwts).words)
  {
    SurfaceTiles(words, mwts, 1, 0);
    AddTokensWords(lower, d, words, SurfaceFrom(words, mwts, 1, 0), 1);
  }

  /** With ids equal to positions, a head becomes absolute, and lands on one of the sentence's own new ids
      exactly when it was the id of one of its words. */
  lemma {:induction false} HeadsStayInside(lower: char -> char, d: Data, words: seq<Word>, mwts: seq<MultiwordToken>,
      k: nat)
    requires |words| >= 1 && OrderedRanges(|words|, mwts) && 1 <= k < |words| && words[k].id == k
    ensures var r, n := AddSentence(lower, d, words, mwts).words, |d.words|;
            && |r| == n + |words| - 1
            && r[n + k - 1].w.id == n + k
            && r[n + k - 1].w.head == (if words[k].head == 0 then 0 else n + words[k].head)
            && (n + 1 <= r[n + k - 1].w.head <= n + |words| - 1 <==> 1 <= words[k].head < |words|)
  {
    AddSentenceAppends(lower, d, words, mwts);
  }

  /** An undefined head (-1) does not stay undefined: after the first sentence it becomes the id of the word
      before the last one of the previous sentences, or 0. */
  lemma {:induction false} UndefinedHeadDrifts(lower: char -> char, d: Data, words: seq<Word>,
      mwts: seq<MultiwordToken>, k: nat)
    requires |words| >= 1 && OrderedRanges(|words|, mwts) && 1 <= k < |words| && words[k].id == k && words[k].head == -1
    ensures var r := AddSentence(lower, d, words, mwts).words;
            && |r| == |d.words| + |words| - 1
            && r[|d.words| + k - 1].w.head == |d.words| - 1
  {
    HeadsStayInside(lower, d, words, mwts, k);
  }

  /** Sentences as the reader accepts them; a head of -1 is undefined. */
  datatype Input = Input(words: seq<Word>, mwts: seq<MultiwordToken>)

  ghost predicate Accepted(s: Input) {
    && |s.words| >= 1 && OrderedRanges(|s.words|, s.mwts)
    && forall k {:trigger s.words[k]} | 1 <= k < |s.words| :: s.words[k].id == k && -1 <= s.words[k].head < |s.words|
  }

  /** Every head of the sentence is defined. */
  ghost predicate HeadsKnown(s: Input) {
    forall k {:trigger s.words[k]} | 1 <= k < |s.words| :: s.words[k].head >= 0
  }

  const NO_DATA := Data("", [], [], [], [])

  ghost function AddAll(lower: char -> char, d: Data, input: seq<Input>): Data
    requires forall k | 0 <= k < |input| :: Accepted(input[k])
  {
    if input == [] then d
    else
      var n := |input| - 1;
      assert Accepted(input[n]);
      AddSentence(lower, AddAll(lower, d, input[..n]), input[n].words, input[n].mwts)
  }

  ghost predicate HeadsDefined(ws: seq<WordData>) {
    forall i | 0 <= i < |ws| :: 0 <= ws[i].w.head <= |ws|
  }

  lemma {:induction false} AddSentenceKeepsHeads(lower: char -> char, d: Data, s: Input)
    requires Accepted(s) && HeadsInside(d.words)
    ensures var r := AddSentence(lower, d, s.words, s.mwts).words;
            HeadsInside(r) && (HeadsDefined(d.words) && HeadsKnown(s) ==> HeadsDefined(r))
  {
    AddSentenceAppends(lower, d, s.words, s.mwts);
    var r, n := AddSentence(lower, d, s.words, s.mwts).words, |d.words|;
    forall i | 0 <= i < |r|
      ensures r[i].w.head <= |r| && (HeadsDefined(d.words) && HeadsKnown(s) ==> 0 <= r[i].w.head)
    {
      if i < n {
        assert r[..n][i] == d.words[i];
      } else {
        HeadsStayInside(lower, d, s.words, s.mwts, i - n + 1);
      }
    }
  }

  /** Over any run of sentences the layout holds and no head lies behind the last word, which is what the alignment
      needs to re-index heads; and if every head was defined, every head is 0 or a word of the data. */
  lemma {:induction false} RunsKeepLayout(lower: char -> char, input: seq<Input>)
    requires forall k | 0 <= k < |input| :: Accepted(input[k])
    ensures var r := AddAll(lower, NO_DATA, input);
            && Layout(r) && HeadsInside(r.words)
            && ((forall k | 0 <= k < |input| :: HeadsKnown(input[k])) ==> HeadsDefined(r.words))
    decreases |input|
  {
    if input != [] {
      var n := |input| - 1;
      RunsKeepLayout(lower, input[..n]);
      var d := AddAll(lower, NO_DATA, input[..n]);
      AddSentenceKeepsLayout(lower, d, input[n].words, input[n].mwts);
      AddSentenceKeepsHeads(lower, d, input[n]);
    }
  }

  // ---------- tokens that have characters ----------

  ghost predicate Nonblank(form: string) { exists c | c in form :: c != ' ' }

  /** Every token of the sentence has a character that is not a space. */
  ghost predicate NonblankTokens(s: Input)
    requires OrderedRanges(|s.words|, s.mwts)
  {
    AllNonblank(SurfaceFrom(s.words, s.mwts, 1, 0))
  }

  ghost predicate AllNonblank(ts: seq<Surface>) {
    ts != [] ==> Nonblank(ts[0].form) && AllNonblank(ts[1..])
  }

  /** Tokens and words have characters, and multiword tokens start one after the other. */
  ghost predicate Filling(d: Data) {
    && (forall k | 0 <= k < |d.tokens| :: d.tokens[k].0 < d.tokens[k].1)
    && (forall i | 0 <= i < |d.words| :: d.words[i].start < d.words[i].end)
    && FirstsIncreasing(d.multiwords) && (forall j | 0 <= j < |d.multiwords| :: d.multiwords[j].0 < |d.chars|)
  }

  lemma {:induction false} AddTokenFills(lower: char -> char, d: Data, words: seq<Word>, t: Surface)
    requires Filling(d) && t.first <= t.last < |words| && Nonblank(t.form)
    ensures var r := AddToken(lower, d, words, t); Filling(r) && |d.chars| < |r.chars|
  {
    assert NonSpace(t.form) != "";
  }

  lemma {:induction false} AddTokensFill(lower: char -> char, d: Data, words: seq<Word>, ts: seq<Surface>, i: nat)
    requires Filling(d) && Tiling(ts, i, |words|) && AllNonblank(ts)
    ensures var r := AddTokens(lower, d, words, ts, i);
            Filling(r) && (ts != [] ==> |d.chars| < |r.chars|) && r.sentences == d.sentences
    decreases |ts|
  {
    if ts != [] {
      AddTokensStep(lower, d, words, ts, i);
      AddTokenFills(lower, d, words, ts[0]);
      AddTokensFill(lower, AddToken(lower, d, words, ts[0]), words, ts[1..], ts[0].last + 1);
    }
  }

  /** A sentence that has a word, as all have that come from a reader, and no blank token. */
  ghost predicate Full(s: Input)
    requires OrderedRanges(|s.words|, s.mwts)
  {
    |s.words| >= 2 && NonblankTokens(s)
  }

  ghost predicate SentencesFilling(d: Data) {
    forall k | 0 <= k < |d.sentences| :: d.sentences[k].0 < d.sentences[k].1
  }

  lemma {:induction false} AddSentenceFills(lower: char -> char, d: Data, s: Input)
    requires Accepted(s) && Full(s) && Filling(d) && SentencesFilling(d)
    ensures var r := AddSentence(lower, d, s.words, s.mwts); Filling(r) && SentencesFilling(r)
  {
    SurfaceTiles(s.words, s.mwts, 1, 0);
    AddTokensFill(lower, d, s.words, SurfaceFrom(s.words, s.mwts, 1, 0), 1);
  }

  /** Over any run of sentences without blank tokens all tokens, words and sentences have characters. */
  lemma {:induction false} RunsFill(lower: char -> char, input: seq<Input>)
    requires forall k | 0 <= k < |input| :: Accepted(input[k]) && Full(input[k])
    ensures Filling(AddAll(lower, NO_DATA, input)) && SentencesFilling(AddAll(lower, NO_DATA, input))
    decreases |input|
  {
    if input != [] {
      var n := |input| - 1;
      RunsFill(lower, input[..n]);
      AddSentenceFills(lower, AddAll(lower, NO_DATA, input[..n]), input[n]);
    }
  }

  /** Non-blank tokens only: the word data is then fit for the alignment, and aligns with itself completely. */
  lemma {:induction false} NonblankAligns(d: Data)
    requires Layout(d) && forall i | 0 <= i < |d.words| :: d.words[i].start < d.words[i].end
    ensures TextOrder(d.words) && ProperMultiwords(d.words)
    ensures Ends(d.words, d.words, 0, 0)
    ensures var p := Align(d.words, d.words, 0, 0); |p| == |d.words| && forall i | 0 <= i < |p| :: p[i] == (i, i)
  {
    LayoutOrders(d);
    SelfAlignment(d.words, 0);
  }

  lemma {:induction false} LayoutOrders(d: Data)
    requires Layout(d) && forall i | 0 <= i < |d.words| :: d.words[i].start < d.words[i].end
    ensures TextOrder(d.words) && ProperMultiwords(d.words)
  {
  }

  // ---------- F1 over spans ----------

  datatype F1 = F1(totalSystem: nat, totalGold: nat, precision: real, recall: real, f1: real)

  function MakeF1(both: nat, system: nat, gold: nat): F1 {
    F1(system, gold,
       if system > 0 then both as real / system as real else 0.0,
       if gold > 0 then both as real / gold as real else 0.0,
       if system + gold > 0 then (2 * both) as real / (system + gold) as real else 0.0)
  }

  /** The score is the harmonic mean of precision and recall. */
  lemma {:induction false} HarmonicMean(both: nat, system: nat, gold: nat)
    requires both > 0 && system > 0 && gold > 0
    ensures var r := MakeF1(both, system, gold); r.f1 * (r.precision + r.recall) == 2.0 * r.precision * r.recall
  {
    var b, s, g := both as real, system as real, gold as real;
    var p, q := b / s, b / g;
    assert p * s == b && q * g == b;
    var f := (2.0 * b) / (s + g);
    assert f * (s + g) == 2.0 * b;
    calc {
      f * (p + q) * (s * g);
      f * ((p * s) * g + (q * g) * s);
      f * (b * g + b * s);
      f * (s + g) * b;
      2.0 * b * b;
      2.0 * (p * s) * (q * g);
      2.0 * p * q * (s * g);
    }
    assert s * g > 0.0;
  }

  /** What precision, recall and score are shares of. */
  lemma {:induction false} ScoreShares(both: nat, system: nat, gold: nat)
    ensures var r := MakeF1(both, system, gold);
            && r.totalSystem == system && r.totalGold == gold
            && (if system > 0 then r.precision * system as real == both as real else r.precision == 0.0)
            && (if gold > 0 then r.recall * gold as real == both as real else r.recall == 0.0)
            && (if system + gold > 0 then r.f1 * (system + gold) as real == (2 * both) as real else r.f1 == 0.0)
  {
  }

  ghost predicate FirstsIncreasing<T>(s: seq<(nat, T)>) {
    forall i, j | 0 <= i < j < |s| :: s[i].0 < s[j].0
  }

  /** The pairs present in both lists, from si and gi on. */
  ghost function Shared<T>(system: seq<(nat, T)>, gold: seq<(nat, T)>, si: nat, gi: nat): set<(nat, T)>
    requires si <= |system| && gi <= |gold|
  {
    set p | p in system[si..] && p in gold[gi..]
  }

  /** The two-pointer count. On lists with strictly increasing starts it is the size of the intersection. */
  method EvaluateF1<T(==)>(system: seq<(nat, T)>, gold: seq<(nat, T)>) returns (both: nat, r: F1)
    ensures r == MakeF1(both, |system|, |gold|)
    ensures FirstsIncreasing(system) && FirstsIncreasing(gold) ==> both == |Shared(system, gold, 0, 0)|
  {
    both := 0;
    var si, gi := 0, 0;
    while si < |system| || gi < |gold|
      invariant 0 <= si <= |system| && 0 <= gi <= |gold|
      invariant FirstsIncreasing(system) && FirstsIncreasing(gold) ==>
                  both + |Shared(system, gold, si, gi)| == |Shared(system, gold, 0, 0)|
      decreases |system| - si + |gold| - gi
    {
      if si < |system| && (gi == |gold| || system[si].0 < gold[gi].0) {
        SkipSystem(system, gold, si, gi);
        si := si + 1;
      } else if gi < |gold| && (si == |system| || gold[gi].0 < system[si].0) {
        SkipGold(system, gold, si, gi);
        gi := gi + 1;
      } else {
        TakeBoth(system, gold, si, gi);
        both := both + if system[si].1 == gold[gi].1 then 1 else 0;
        si, gi := si + 1, gi + 1;
      }
    }
    r := MakeF1(both, |system|, |gold|);
  }

  lemma {:induction false} SkipSystem<T>(system: seq<(nat, T)>, gold: seq<(nat, T)>, si: nat, gi: nat)
    requires si < |system| && gi <= |gold| && (gi == |gold| || system[si].0 < gold[gi].0)
    ensures FirstsIncreasing(gold) ==> Shared(system, gold, si, gi) == Shared(system, gold, si + 1, gi)
  {
    assert system[si..] == [system[si]] + system[si + 1..];
  }

  lemma {:induction false} SkipGold<T>(system: seq<(nat, T)>, gold: seq<(nat, T)>, si: nat, gi: nat)
    requires si <= |system| && gi < |gold| && (si == |system| || gold[gi].0 < system[si].0)
    ensures FirstsIncreasing(system) ==> Shared(system, gold, si, gi) == Shared(system, gold, si, gi + 1)
  {
    assert gold[gi..] == [gold[gi]] + gold[gi + 1..];
  }

  lemma {:induction false} TakeBoth<T>(system: seq<(nat, T)>, gold: seq<(nat, T)>, si: nat, gi: nat)
    requires si < |system| && gi < |gold| && system[si].0 == gold[gi].0
    ensures FirstsIncreasing(system) && FirstsIncreasing(gold) ==>
              |Shared(system, gold, si, gi)| ==
              |Shared(system, gold, si + 1, gi + 1)| + if system[si].1 == gold[gi].1 then 1 else 0
  {
    if FirstsIncreasing(system) && FirstsIncreasing(gold) {
      var p, q, later := system[si], gold[gi], Shared(system, gold, si + 1, gi + 1);
      HeadIsNew(system, si, q);
      HeadIsNew(gold, gi, p);
      assert p !in later;
      assert Shared(system, gold, si, gi) == if p == q then later + {p} else later;
    }
  }

  /** Where starts increase, no later entry starts where this one does. */
  lemma {:induction false} HeadIsNew<T>(s: seq<(nat, T)>, i: nat, x: (nat, T))
    requires i < |s| && FirstsIncreasing(s) && x.0 == s[i].0
    ensures s[i] !in s[i + 1..] && x !in s[i + 1..]
    ensures forall p :: p in s[i..] <==> p == s[i] || p in s[i + 1..]
  {
    assert s[i..] == [s[i]] + s[i + 1..];
  }

  /** Tokens of the evaluation data start strictly one after the other exactly when none but the last is blank. */
  lemma {:induction false} NonblankTokensIncrease(spans: seq<(nat, nat)>, n: nat)
    requires Tiles(spans, n)
    ensures FirstsIncreasing(spans) <==> forall k | 0 <= k < |spans| - 1 :: spans[k].0 < spans[k].1
  {
    if FirstsIncreasing(spans) {
      forall k | 0 <= k < |spans| - 1 ensures spans[k].0 < spans[k].1 {
        assert spans[k + 1].0 == spans[k].1;
      }
    }
    if forall k | 0 <= k < |spans| - 1 :: spans[k].0 < spans[k].1 {
      forall i, j | 0 <= i < j < |spans| ensures spans[i].0 < spans[j].0 { FirstsGrow(spans, n, i, j); }
    }
  }

  lemma {:induction false} FirstsGrow(spans: seq<(nat, nat)>, n: nat, i: nat, j: nat)
    requires Tiles(spans, n) && i < j < |spans|
    requires forall k | 0 <= k < |spans| - 1 :: spans[k].0 < spans[k].1
    ensures spans[i].0 < spans[j].0
    decreases j - i
  {
    if j > i + 1 { FirstsGrow(spans, n, i, j - 1); }
  }
}
