/** What the CoNLL-U reader accepts, and when it comes to an end. */
module ConlluSoundness {
  import opened Sentences
  import opened Strings
  import opened ConlluReader
  import opened ConlluWriter
  import opened ConlluRoundTrip

  // ---------- every accepted sentence is well formed ----------

  /** The invariant of the reading loop. */
  ghost predicate StateOk(st: State, version: nat) {
    && |st.words| >= 1 && st.words[0] == ROOT
    && (forall k {:trigger st.words[k]} | 1 <= k < |st.words| :: WordOk(st.words[k], k, version))
    && st.last >= 0 && OrderedRanges(st.last + 1, st.mwts) && (forall m | m in st.mwts :: MultiwordOk(m, version))
    && NumberedInOrder(st.empties) && (forall e | e in st.empties :: EmptyNodeOk(e, version) && e.id < |st.words|)
    && (forall c | c in st.comments :: CommentOk(c))
  }

  lemma {:induction false} SplitParts(s: string, sep: char, c: char)
    requires c !in s
    ensures forall i | 0 <= i < |Split(s, sep)| :: c !in Split(s, sep)[i]
    decreases |s|
  {
    var k := IndexOf(s, sep);
    if k < |s| { SplitParts(s[k + 1..], sep, c); }
  }

  lemma {:induction false} ColumnsChecked(cols: seq<string>, version: nat, i: nat)
    requires |cols| == 10 && ColumnError(cols, version, i) == None && i <= 10
    ensures forall k | i <= k < 10 :: cols[k] != "" && (MayHoldSpaces(version, k) || ' ' !in cols[k])
    decreases 10 - i
  {
    if i < 10 { ColumnsChecked(cols, version, i + 1); }
  }

  lemma {:induction false} MultiwordChecked(cols: seq<string>, version: nat, i: nat)
    requires |cols| == 10 && MultiwordColumnError(cols, version, i) == None && i <= 5
    ensures cols[5] == "_" || (version >= 2 && cols[5] == "Typo=Yes")
    decreases 10 - i
  {
    if i < 5 { MultiwordChecked(cols, version, i + 1); }
  }

  /** The columns of a parsed line are cells. */
  lemma {:induction false} ParsedColumns(line: string, version: nat)
    requires NoBreaks(line) && |Split(line, '\t')| == 10 && ColumnError(Split(line, '\t'), version, 0) == None
    ensures ColumnsOk(Split(line, '\t'), version)
  {
    SplitParts(line, '\t', '\r');
    SplitParts(line, '\t', '\n');
    SplitFree(line, '\t');
    ColumnsChecked(Split(line, '\t'), version, 0);
  }

  lemma {:induction false} WordKeeps(st: State, cols: seq<string>, version: nat)
    requires StateOk(st, version) && ColumnsOk(cols, version)
    ensures ParseWord(st, cols).Next? ==> StateOk(ParseWord(st, cols).state, version)
  {
    var r := ParseWord(st, cols);
    if r.Next? {
      var w := r.state.words[|st.words|];
      assert r.state.words == st.words + [w];
      assert WordOk(w, |st.words|, version);
    }
  }

  lemma {:induction false} MultiwordKeeps(st: State, cols: seq<string>, version: nat)
    requires StateOk(st, version) && ColumnsOk(cols, version)
    ensures ParseMultiword(st, cols, version).Next? ==> StateOk(ParseMultiword(st, cols, version).state, version)
  {
    var r := ParseMultiword(st, cols, version);
    if r.Next? {
      MultiwordChecked(cols, version, 2);
      var m := r.state.mwts[|st.mwts|];
      assert r.state.mwts == st.mwts + [m];
      assert MultiwordOk(m, version);
      RangesGrow(st.last, st.mwts, m);
    }
  }

  lemma {:induction false} RangesGrow(last: int, mwts: seq<MultiwordToken>, m: MultiwordToken)
    requires last >= 0 && OrderedRanges(last + 1, mwts) && last < m.idFirst <= m.idLast
    ensures OrderedRanges(m.idLast + 1, mwts + [m])
  {
  }

  lemma {:induction false} EmptyNodeKeeps(st: State, cols: seq<string>, version: nat)
    requires StateOk(st, version) && ColumnsOk(cols, version) && version >= 2
    ensures ParseEmptyNode(st, cols).Next? ==> StateOk(ParseEmptyNode(st, cols).state, version)
  {
    var r := ParseEmptyNode(st, cols);
    if r.Next? {
      IndicesPositive(st.empties, version);
      var e := r.state.empties[|st.empties|];
      assert r.state == st.(empties := st.empties + [e]) && EmptyNodeOk(e, version);
      EmptyNodeAdded(st, e, version);
    }
  }

  lemma {:induction false} EmptyNodeAdded(st: State, e: EmptyNode, version: nat)
    requires StateOk(st, version) && EmptyNodeOk(e, version) && e.id < |st.words| &&
             NextEmptyNode(st.empties, e.id, e.index)
    ensures StateOk(st.(empties := st.empties + [e]), version)
  {
    assert (st.empties + [e])[..|st.empties|] == st.empties;
  }

  lemma {:induction false} IndicesPositive(empties: seq<EmptyNode>, version: nat)
    requires forall e | e in empties :: EmptyNodeOk(e, version)
    ensures empties != [] ==> empties[|empties| - 1].index >= 1
  {
    if empties != [] { assert empties[|empties| - 1] in empties; }
  }

  lemma {:induction false} LineKeeps(st: State, line: string, version: nat)
    requires StateOk(st, version) && NoBreaks(line)
    ensures ParseLine(st, line, version).Next? ==> StateOk(ParseLine(st, line, version).state, version)
  {
    if ParseLine(st, line, version).Next? {
      ParsedColumns(line, version);
      var cols := Split(line, '\t');
      if '-' in cols[0] {
        MultiwordKeeps(st, cols, version);
      } else if version >= 2 && '.' in cols[0] {
        EmptyNodeKeeps(st, cols, version);
      } else {
        WordKeeps(st, cols, version);
      }
    }
  }

  lemma {:induction false} FirstLineNoBreaks(text: string)
    ensures NoBreaks(FirstLine(text))
  {
    LineUnbroken(text);
  }

  lemma {:induction false} ReadKeeps(text: string, st: State, version: nat)
    requires StateOk(st, version)
    ensures Read(text, st, version).Finished? ==>
              StateOk(Read(text, st, version).state, version) && |Read(text, st, version).rest| <= |text|
    decreases |text|
  {
    if text != "" {
      var line, rest := FirstLine(text), AfterLine(text);
      FirstLineNoBreaks(text);
      if line == "" {
        if NoWords(st) && |rest| < |text| { ReadKeeps(rest, st, version); }
      } else if line[0] == '#' {
        var st' := if NoWords(st) then st.(comments := st.comments + [line]) else st;
        assert CommentOk(line);
        ReadKeeps(rest, st', version);
      } else if ParseLine(st, line, version).Next? {
        LineKeeps(st, line, version);
        ReadKeeps(rest, ParseLine(st, line, version).state, version);
      }
    }
  }

  lemma {:induction false} LinkedChildren(words: seq<Word>)
    requires forall k | 0 <= k < |words| :: words[k].head < |words|
    ensures ChildrenIndexHeads(WithChildren(words))
  {
    var r := WithChildren(words);
    assert forall k | 0 <= k < |r| :: r[k].children == ChildrenOf(words, k, |words|) && r[k].head == words[k].head;
  }

  lemma {:induction false} FinishedIsWellFormed(st: State, version: nat)
    requires StateOk(st, version) && FinishError(st) == None && !NoWords(st)
    ensures WellFormed(Tree(WithChildren(st.words), st.mwts, st.empties, st.comments), version)
  {
    var words := WithChildren(st.words);
    assert forall k | 1 <= k < |st.words| :: st.words[k].head < |st.words|;
    LinkedChildren(st.words);
    forall k {:trigger words[k]} | 1 <= k < |words| ensures WordOk(words[k], k, version) && words[k].head < |words| {
      assert WordOk(st.words[k], k, version);
    }
  }

  /** Soundness: whatever the text, an accepted sentence is well formed. */
  lemma {:induction false} AcceptedIsWellFormed(text: string, version: nat)
    requires SentenceAt(text, version).Sentence?
    ensures WellFormed(SentenceAt(text, version).tree, version)
  {
    ReadKeeps(text, START, version);
    FinishedIsWellFormed(Read(text, START, version).state, version);
  }

  /** Reading, writing and reading again is reading: the written form of an accepted sentence is a normal form. */
  lemma {:induction false} ReadWriteRead(text: string, version: nat, rest: string)
    requires SentenceAt(text, version).Sentence?
    ensures var t := SentenceAt(text, version).tree;
            Printable(t) && SentenceAt(Write(t, version) + rest, version) == Outcome.Sentence(t, rest)
  {
    AcceptedIsWellFormed(text, version);
    RoundTrip(SentenceAt(text, version).tree, version, rest);
  }

  // ---------- when reading ends ----------

  /** The position of the first carriage return that no line feed follows, or the length. */
  function LoneReturn(text: string): (k: nat)
    ensures k <= |text|
  {
    if text == "" then 0
    else if text[0] == '\r' && (|text| == 1 || text[1] != '\n') then 0
    else 1 + LoneReturn(text[1..])
  }

  lemma {:induction false} LoneReturnSkips(text: string, n: nat)
    requires n <= |text|
    requires forall k | 0 <= k < n :: text[k] == '\r' ==> k + 1 < |text| && text[k + 1] == '\n'
    ensures LoneReturn(text) == n + LoneReturn(text[n..])
    decreases n
  {
    if n == 0 {
      assert text[0..] == text;
    } else {
      assert text[0] == '\r' ==> text[1] == '\n';
      assert text[n..] == text[1..][n - 1..];
      assert forall k | 0 <= k < n - 1 :: text[1..][k] == text[k + 1];
      LoneReturnSkips(text[1..], n - 1);
    }
  }

  predicate LoneAt(text: string, k: nat)
    requires k < |text|
  {
    text[k] == '\r' && (k + 1 == |text| || text[k + 1] != '\n')
  }

  lemma {:induction false} NoReturnInLine(text: string)
    ensures LoneReturn(text) == LineLength(text) + LoneReturn(text[LineLength(text)..])
  {
    var n := LineLength(text);
    LineUnbroken(text);
    LoneReturnSkips(text, n);
  }

  /** A first line that ends in a lone return, which is not taken. */
  lemma {:induction false} LoneBreak(text: string)
    requires LineLength(text) < |text| && LoneAt(text, LineLength(text))
    ensures var n := LineLength(text);
            LoneReturn(text) == n && AfterLine(text) == text[n..] && FirstLine(text[..n]) == text[..n]
  {
    NoReturnInLine(text);
    FirstLineNoBreaks(text);
    WholeLine(text[..LineLength(text)]);
  }

  /** A first line that ends in a line break. */
  lemma {:induction false} TakenBreak(text: string)
    requires LineLength(text) < |text| && !LoneAt(text, LineLength(text))
    ensures var n, rest, k := LineLength(text), AfterLine(text), LoneReturn(text);
            && |rest| < |text| - n && k == |text| - |rest| + LoneReturn(rest)
            && FirstLine(text[..k]) == FirstLine(text) && AfterLine(text[..k]) == rest[..LoneReturn(rest)]
  {
    var n := LineLength(text);
    NoReturnInLine(text);
    var tail := text[n..];
    var m := if tail[0] == '\r' then 2 else 1;
    LoneReturnSkips(tail, m);
    assert tail[m..] == text[n + m..] == AfterLine(text);
    CutLine(text, n, LoneReturn(text));
  }

  lemma {:induction false} WholeLine(line: string)
    requires NoBreaks(line)
    ensures LineLength(line) == |line| && FirstLine(line) == line
    decreases |line|
  {
    if line != "" { assert line[0] in line; WholeLine(line[1..]); }
  }

  /** Cutting a text at k, after its first line break, keeps the first line. */
  lemma {:induction false} CutLine(text: string, n: nat, k: nat)
    requires n == LineLength(text) < |text|
    requires if text[n] == '\r' then n + 2 <= k <= |text| && text[n + 1] == '\n' else n + 1 <= k <= |text|
    ensures FirstLine(text[..k]) == FirstLine(text)
    ensures AfterLine(text[..k]) == AfterLine(text)[..k - (|text| - |AfterLine(text)|)]
  {
    LineLengthPrefix(text, k);
    var m := n + if text[n] == '\r' then 2 else 1;
    BreakTaken(text, n);
    BreakTaken(text[..k], n);
    CutTwice(text, n, k);
    CutTwice(text, m, k);
  }

  lemma {:induction false} CutTwice(text: string, m: nat, k: nat)
    requires m <= k <= |text|
    ensures text[..k][..m] == text[..m] && text[..k][m..] == text[m..][..k - m]
  {
  }

  lemma {:induction false} BreakTaken(text: string, n: nat)
    requires n == LineLength(text) < |text|
    requires text[n] == '\r' ==> n + 1 < |text| && text[n + 1] == '\n'
    ensures AfterLine(text) == text[n + if text[n] == '\r' then 2 else 1..]
  {
    assert text[n..][if text[n] == '\r' then 2 else 1..] == text[n + if text[n] == '\r' then 2 else 1..];
  }

  lemma {:induction false} LineLengthPrefix(text: string, k: nat)
    requires LineLength(text) < k <= |text|
    ensures LineLength(text[..k]) == LineLength(text)
    decreases |text|
  {
    if !AtBreak(text[0]) {
      assert text[..k][1..] == text[1..][..k - 1];
      LineLengthPrefix(text[1..], k - 1);
    }
  }

  /** The text ran out without a word line. */
  predicate EndsWithoutWords(r: Reading) { r.Finished? && NoWords(r.state) }

  /** Reading never ends exactly when the text has a lone carriage return and what stands before the first one
      is read without an error and without a word. */
  lemma {:induction false} StuckExactly(text: string, st: State, version: nat)
    ensures Read(text, st, version) == Stuck <==>
              LoneReturn(text) < |text| && EndsWithoutWords(Read(text[..LoneReturn(text)], st, version))
    decreases |text|
  {
    if text != "" {
      var n, rest, line := LineLength(text), AfterLine(text), FirstLine(text);
      if n == |text| {
        NoReturnInLine(text);
        EmptyRest(text, st, version);
      } else if LoneAt(text, n) {
        LoneBreak(text);
        StuckAtReturn(text, st, version);
      } else {
        TakenBreak(text);
        if line == "" {
          if NoWords(st) { StuckExactly(rest, st, version); }
        } else if line[0] == '#' {
          StuckExactly(rest, if NoWords(st) then st.(comments := st.comments + [line]) else st, version);
        } else {
          match ParseLine(st, line, version) {
            case Fail(_) =>
            case Next(state) => StuckExactly(rest, state, version);
          }
        }
      }
    }
  }

  lemma {:induction false} EmptyRest(text: string, st: State, version: nat)
    requires text != "" && AfterLine(text) == ""
    ensures Read(text, st, version) != Stuck
  {
    assert forall state :: Read("", state, version) == Finished(state, "");
  }

  lemma {:induction false} StuckAtReturn(text: string, st: State, version: nat)
    requires LineLength(text) < |text| && AfterLine(text) == text[LineLength(text)..]
    requires FirstLine(text[..LineLength(text)]) == text[..LineLength(text)]
    ensures Read(text, st, version) == Stuck <==> EndsWithoutWords(Read(text[..LineLength(text)], st, version))
  {
    var n := LineLength(text);
    var tail, line := text[n..], text[..n];
    assert FirstLine(tail) == "" && AfterLine(tail) == tail;
    assert forall state :: Read(tail, state, version) == if NoWords(state) then Stuck else Finished(state, tail);
    assert AfterLine(line) == "";
    assert forall state :: Read("", state, version) == Finished(state, "");
    if n == 0 { assert tail == text; }
  }

  /** In particular reading ends on every text in which each carriage return is followed by a line feed. */
  lemma {:induction false} ReadingEnds(text: string, version: nat)
    requires LoneReturn(text) == |text|
    ensures SentenceAt(text, version) != NeverEnds
  {
    StuckExactly(text, START, version);
  }

  /** A lone carriage return at the very start already suffices, whatever follows. */
  lemma {:induction false} LoneReturnStalls(text: string, version: nat)
    requires text != "" && LoneAt(text, 0)
    ensures SentenceAt(text, version) == NeverEnds
  {
    assert LoneReturn(text) == 0 && text[..0] == "";
    StuckExactly(text, START, version);
  }
}
