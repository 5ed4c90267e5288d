/** When reading block by block and reading at once differ: src/model/pipeline.cpp:87-102. */
module ConlluLeftovers {
  import opened Sentences
  import opened Sequences
  import opened Strings
  import opened ConlluReader
  import opened ConlluWriter
  import opened ConlluRoundTrip
  import opened ConlluSoundness
  import opened ConlluBlocks

  // ---------- states before the first word ----------

  /** The root is there; multiword tokens claim words from 1 on; nothing else claims any. */
  predicate Fresh(st: State) {
    |st.words| >= 1 && st.words[0] == ROOT && if st.mwts == [] then st.last == 0 else 1 <= st.last <= INT_MAX
  }

  lemma {:induction false} LineKeepsFresh(st: State, line: string, version: nat)
    requires Fresh(st) && ParseLine(st, line, version).Next?
    ensures Fresh(ParseLine(st, line, version).state)
  {
  }

  lemma {:induction false} ReadKeepsFresh(text: string, st: State, version: nat)
    requires Fresh(st) && Read(text, st, version).Finished?
    ensures Fresh(Read(text, st, version).state)
    decreases |text|
  {
    if text != "" {
      var line, rest := FirstLine(text), AfterLine(text);
      if line == "" {
        if NoWords(st) && |rest| < |text| { ReadKeepsFresh(rest, st, version); }
      } else if line[0] == '#' {
        ReadKeepsFresh(rest, if NoWords(st) then st.(comments := st.comments + [line]) else st, version);
      } else if ParseLine(st, line, version).Next? {
        LineKeepsFresh(st, line, version);
        ReadKeepsFresh(rest, ParseLine(st, line, version).state, version);
      }
    }
  }

  lemma {:induction false} LeftIsFresh(text: string, version: nat)
    ensures Left(text, version).Some? ==> Fresh(Left(text, version).value)
    decreases |text|
  {
    ReadConsumes(text, START, version);
    var r := Read(text, START, version);
    if r.Finished? {
      ReadKeepsFresh(text, START, version);
      if !NoWords(r.state) && FinishError(r.state) == None { LeftIsFresh(r.rest, version); }
    }
  }

  // ---------- reading with something left over ----------

  /** The state s reached with st left over from before. */
  function With(st: State, s: State): State {
    State(s.words, st.mwts + s.mwts, st.empties + s.empties, st.comments + s.comments,
          if s.last == 0 then st.last else s.last)
  }

  lemma {:induction false} MultiwordWith(st: State, s: State, cols: seq<string>, version: nat)
    requires |cols| == 10 && Fresh(s) && ParseMultiword(s, cols, version).Next?
    ensures var r := ParseMultiword(With(st, s), cols, version);
            r.Fail? || r.state == With(st, ParseMultiword(s, cols, version).state)
    ensures ParseMultiword(With(st, s), cols, version) != Fail(MissingWords)
  {
    var next := ParseMultiword(s, cols, version).state;
    Assoc(st.mwts, s.mwts, next.mwts[|s.mwts|..]);
  }

  lemma {:induction false} EmptyNodeWith(st: State, s: State, cols: seq<string>)
    requires |cols| == 10 && ParseEmptyNode(s, cols).Next?
    ensures var r := ParseEmptyNode(With(st, s), cols); r.Fail? || r.state == With(st, ParseEmptyNode(s, cols).state)
    ensures ParseEmptyNode(With(st, s), cols) != Fail(MissingWords)
  {
    var next := ParseEmptyNode(s, cols).state;
    Assoc(st.empties, s.empties, next.empties[|s.empties|..]);
  }

  lemma {:induction false} LineWith(st: State, s: State, line: string, version: nat)
    requires Fresh(s) && ParseLine(s, line, version).Next?
    ensures var r := ParseLine(With(st, s), line, version);
            r.Fail? || r.state == With(st, ParseLine(s, line, version).state)
    ensures ParseLine(With(st, s), line, version) != Fail(MissingWords)
  {
    var cols := Split(line, '\t');
    if '-' in cols[0] {
      MultiwordWith(st, s, cols, version);
    } else if version >= 2 && '.' in cols[0] {
      EmptyNodeWith(st, s, cols);
    }
  }

  /** Where reading from s finishes a sentence, reading with something left over finishes the same sentence with all of
      that in front, or refuses a line. */
  lemma {:induction false} ReadWith(text: string, st: State, s: State, version: nat)
    requires Fresh(s) && Read(text, s, version).Finished?
    ensures var r, r' := Read(text, s, version), Read(text, With(st, s), version);
            (r'.Failed? && r'.error != MissingWords) || r' == Finished(With(st, r.state), r.rest)
    decreases |text|
  {
    if text != "" {
      var line, rest := FirstLine(text), AfterLine(text);
      if line == "" {
        if NoWords(s) && |rest| < |text| { ReadWith(rest, st, s, version); }
      } else if line[0] == '#' {
        Assoc(st.comments, s.comments, [line]);
        ReadWith(rest, st, if NoWords(s) then s.(comments := s.comments + [line]) else s, version);
      } else {
        LineWith(st, s, line, version);
        LineKeepsFresh(s, line, version);
        if ParseLine(With(st, s), line, version).Next? {
          ReadWith(rest, st, ParseLine(s, line, version).state, version);
        }
      }
    }
  }

  lemma {:induction false} WithStart(st: State)
    requires Fresh(st) && NoWords(st)
    ensures With(st, START) == st
  {
    assert st.words == [ROOT];
    assert st.mwts + [] == st.mwts && st.empties + [] == st.empties && st.comments + [] == st.comments;
  }

  lemma {:induction false} TreeChanges(st: State, s: State)
    requires Fresh(st) && NoWords(st) && st != START
    ensures TreeOf(With(st, s)) != TreeOf(s)
  {
    if st.comments == [] && st.mwts == [] && st.empties == [] { WithStart(st); }
    var t, t' := TreeOf(s), TreeOf(With(st, s));
    assert |t'.comments| + |t'.mwts| + |t'.empties| > |t.comments| + |t.mwts| + |t.empties|;
  }

  /** With something left over, a text that starts with a sentence does not yield that sentence first: a line is refused
      or the sentence has more in it. The words suffice for the multiword token left over. */
  lemma {:induction false} FirstChanges(text: string, st: State, version: nat)
    requires Fresh(st) && NoWords(st) && st != START && SentenceAt(text, version).Sentence?
    requires st.last < |SentenceAt(text, version).tree.words|
    ensures var x, tree := ReadFrom(text, st, version), SentenceAt(text, version).tree;
            if x.trees == [] then x.stop.Broken? && x.stop.error != MissingWords else x.trees[0] != tree
  {
    WithStart(st);
    ReadWith(text, st, START, version);
    ReadKeepsFresh(text, START, version);
    var r := Read(text, START, version);
    if Read(text, st, version).Finished? { TreeChanges(st, r.state); }
  }

  // ---------- exactly when a block can be read on its own ----------

  lemma {:induction false} OtherTrees(trees: seq<Tree>, x: All, y: All)
    requires y.trees != []
    requires x.trees == [] || x.trees[0] != y.trees[0]
    ensures Prepend(trees, x) != Prepend(trees, y)
  {
    if x.trees != [] {
      assert (trees + x.trees)[|trees|] != (trees + y.trees)[|trees|];
    } else {
      assert |trees + x.trees| < |trees + y.trees|;
    }
  }

  /** Before a text that starts with a sentence, with enough words for a multiword token left over, a block can be read
      on its own if and only if it leaves nothing behind. */
  lemma {:induction false} BlockExactly(b: string, rest: string, version: nat)
    requires (b == "" || BlankEnded(b)) && SentenceAt(rest, version).Sentence?
    requires Left(b, version).Some? ==> Left(b, version).value.last < |SentenceAt(rest, version).tree.words|
    ensures ReadAll(b + rest, version) == Then(ReadAll(b, version), ReadAll(rest, version)) <==> !Leaves(b, version)
  {
    if Leaves(b, version) {
      var st, a := Left(b, version).value, ReadAll(b, version);
      LeftIsFresh(b, version);
      BlockJoin(b, rest, version);
      StopOfLeft(b, version);
      FirstChanges(rest, st, version);
      var x := ReadFrom(rest, st, version);
      OtherTrees(a.trees, x, ReadAll(rest, version));
      if FinishError(st).Some? {
        assert x.trees != [] ==> |a.trees + x.trees| > |a.trees|;
      }
    } else {
      BlockThenRest(b, rest, version);
    }
  }

  /** A sentence of n words without anything else. */
  function PlainTree(n: nat): Tree {
    Tree([ROOT] + seq(n, k requires 0 <= k < n => Word(k + 1, "x", "x", "", "", "", -1, "", "", "", [])), [], [], [])
  }

  lemma {:induction false} PlainWellFormed(n: nat, version: nat)
    requires 1 <= n <= INT_MAX
    ensures WellFormed(PlainTree(n), version) && |PlainTree(n).words| == n + 1
  {
    var t := PlainTree(n);
    forall k {:trigger t.words[k]} | 0 <= k < |t.words|
      ensures t.words[k].children == [] && t.words[k].head == -1 && (k > 0 ==> WordOk(t.words[k], k, version))
    {
      if k > 0 { assert t.words[k] == Word(k, "x", "x", "", "", "", -1, "", "", "", []); }
    }
  }

  predicate Separable(b: string, rest: string, version: nat) {
    ReadAll(b + rest, version) == Then(ReadAll(b, version), ReadAll(rest, version))
  }

  /** A block can be read on its own whatever follows if and only if it leaves nothing behind. */
  lemma {:induction false} LeavesNothingExactly(b: string, version: nat)
    requires b == "" || BlankEnded(b)
    ensures (forall rest :: Separable(b, rest, version)) <==> !Leaves(b, version)
  {
    if Leaves(b, version) {
      LeftIsFresh(b, version);
      var st := Left(b, version).value;
      var n := if st.last == 0 then 1 else st.last;
      PlainWellFormed(n, version);
      RoundTrip(PlainTree(n), version, "");
      var rest := Write(PlainTree(n), version) + "";
      BlockExactly(b, rest, version);
      assert !Separable(b, rest, version);
    } else {
      forall rest ensures Separable(b, rest, version) { BlockThenRest(b, rest, version); }
    }
  }

  // ---------- what a block leaves, by its lines ----------

  /** A line that the reader takes for a word. */
  predicate WordLine(line: string, version: nat) {
    line != "" && line[0] != '#' &&
    var id := Split(line, '\t')[0];
    '-' !in id && !(version >= 2 && '.' in id)
  }

  /** Since the last empty line after a word: no line, lines but no word, or a word. */
  datatype Need = Clear | Wanting | Met

  function Follow(need: Need, line: string, version: nat): Need {
    if line == "" then (if need.Met? then Clear else need)
    else if WordLine(line, version) then Met
    else if need.Clear? then Wanting
    else need
  }

  /** What the lines of a text lead to, up to a carriage return that ends no line. */
  function NeedAfter(text: string, need: Need, version: nat): Need
    decreases |text|
  {
    if text == "" then need
    else
      var line, rest := FirstLine(text), AfterLine(text);
      if line == "" && |rest| == |text| then need else NeedAfter(rest, Follow(need, line, version), version)
  }

  predicate Agrees(st: State, need: Need) {
    match need
    case Clear => st == START
    case Wanting => NoWords(st) && st != START
    case Met => |st.words| > 1
  }

  lemma {:induction false} LineAgrees(st: State, need: Need, line: string, version: nat)
    requires Agrees(st, need) && line != "" && line[0] != '#' && ParseLine(st, line, version).Next?
    ensures Agrees(ParseLine(st, line, version).state, Follow(need, line, version))
  {
  }

  /** Reading follows the needs: at the end of the text, or at the end of a sentence and from there on. */
  lemma {:induction false} ReadAgrees(text: string, st: State, need: Need, version: nat)
    requires Agrees(st, need) && Read(text, st, version).Finished?
    ensures var r := Read(text, st, version);
            if NoWords(r.state) then Agrees(r.state, NeedAfter(text, need, version))
            else NeedAfter(text, need, version).Wanting? <==> NeedAfter(r.rest, Clear, version).Wanting?
    decreases |text|
  {
    if text != "" {
      var line, rest := FirstLine(text), AfterLine(text);
      if line == "" {
        if NoWords(st) && |rest| < |text| { ReadAgrees(rest, st, need, version); }
      } else if line[0] == '#' {
        ReadAgrees(rest, if NoWords(st) then st.(comments := st.comments + [line]) else st,
                   Follow(need, line, version), version);
      } else {
        LineAgrees(st, need, line, version);
        ReadAgrees(rest, ParseLine(st, line, version).state, Follow(need, line, version), version);
      }
    }
  }

  /** A text that is read to its end leaves something exactly when its lines end in a paragraph without a word. */
  lemma {:induction false} LeavesByLines(text: string, version: nat)
    requires Left(text, version).Some?
    ensures Leaves(text, version) <==> NeedAfter(text, Clear, version).Wanting?
    decreases |text|
  {
    ReadConsumes(text, START, version);
    ReadAgrees(text, START, Clear, version);
    var r := Read(text, START, version);
    if !NoWords(r.state) { LeavesByLines(r.rest, version); }
  }

  // ---------- the whole stream ----------

  /** Every paragraph, that is every run of lines up to an empty one, has a word line. */
  predicate ParagraphsHaveWords(text: string, need: Need, version: nat)
    decreases |text|
  {
    if text == "" then !need.Wanting?
    else
      var line, rest := FirstLine(text), AfterLine(text);
      && (line == "" ==> !need.Wanting?)
      && (|rest| < |text| ==> ParagraphsHaveWords(rest, Follow(need, line, version), version))
  }

  /** Without lone carriage returns every line is taken. */
  lemma {:induction false} LineTaken(text: string)
    requires text != "" && LoneReturn(text) == |text|
    ensures |AfterLine(text)| < |text| && LoneReturn(AfterLine(text)) == |AfterLine(text)|
  {
    var n := LineLength(text);
    if n < |text| {
      if LoneAt(text, n) { LoneBreak(text); }
      TakenBreak(text);
    }
  }

  /** A block ended by an empty line, and the rest: both keep the condition. */
  lemma {:induction false} ParagraphsSplit(b: string, rest: string, need: Need, version: nat)
    requires BlankEnded(b) && LoneReturn(b + rest) == |b + rest| && ParagraphsHaveWords(b + rest, need, version)
    ensures !NeedAfter(b, need, version).Wanting?
    ensures LoneReturn(rest) == |rest| && ParagraphsHaveWords(rest, Clear, version)
    decreases |b|
  {
    BlockLine(b, rest);
    LineTaken(b + rest);
    var line, after := FirstLine(b), AfterLine(b);
    if after == "" {
      assert after + rest == rest;
    } else {
      ParagraphsSplit(after, rest, Follow(need, line, version), version);
    }
  }

  /** Reading block by block yields the sentences of the whole stream, and stops at the same error, whenever every
      carriage return is followed by a line feed and every paragraph has a word line. */
  lemma {:induction false} BlocksRefineWhole(text: string, version: nat)
    requires LoneReturn(Terminated(text)) == |Terminated(text)|
    requires ParagraphsHaveWords(Terminated(text), Clear, version)
    ensures ReadBlocks(text, version) == ReadAll(Terminated(text), version)
    decreases |text|
  {
    if text != "" {
      var p := GetPara(text);
      ParaSplits(text);
      if p.rest == "" {
        assert p.block + "" == p.block;
        LastBlock(text, version);
      } else {
        ParaBlankEnded(text);
        ParagraphsSplit(p.block, Terminated(p.rest), Clear, version);
        BlocksRefineWhole(p.rest, version);
        if Left(p.block, version).Some? { LeavesByLines(p.block, version); }
        BlockThenRest(p.block, Terminated(p.rest), version);
      }
    }
  }

  /** A first block, the rest of the stream starting with a sentence that is long enough and being the same read either
      way: the whole stream is read the same either way if and only if the first block leaves nothing behind. */
  lemma {:induction false} FirstBlockExactly(text: string, version: nat)
    requires var p := GetPara(text);
             && p.rest != "" && ReadBlocks(p.rest, version) == ReadAll(Terminated(p.rest), version)
             && SentenceAt(Terminated(p.rest), version).Sentence?
             && (Left(p.block, version).Some? ==>
                   Left(p.block, version).value.last < |SentenceAt(Terminated(p.rest), version).tree.words|)
    ensures ReadBlocks(text, version) == ReadAll(Terminated(text), version) <==> !Leaves(GetPara(text).block, version)
  {
    var p := GetPara(text);
    ParaSplits(text);
    ParaBlankEnded(text);
    BlockExactly(p.block, Terminated(p.rest), version);
  }

  // ---------- a block of comments ----------

  const ONE_WORD := Word(1, "x", "x", "", "", "", -1, "", "", "", [])

  function WordText(version: nat): string { Join(WordColumns(ONE_WORD, 1, version), '\t') }

  lemma {:induction false} WordTextLine(version: nat)
    ensures NoBreaks(WordText(version)) && WordText(version) != ""
    ensures Read(WordText(version) + "\n", START, version) == Finished(START.(words := [ROOT, ONE_WORD]), "")
  {
    var cols := WordColumns(ONE_WORD, 1, version);
    WordColumnsFit(ONE_WORD, 1, version);
    LineColumns(cols, version);
    DecimalPlain(1);
    LineStep(cols, "", START, version);
    WordLineParses(START, ONE_WORD, 1, version);
    assert Line(cols) + "" == WordText(version) + "\n";
  }

  lemma {:induction false} OneSentence(text: string, words: seq<Word>, version: nat)
    requires |words| == 2 && words[1].head == -1 && Read(text, START, version) == Finished(START.(words := words), "")
    ensures SentenceAt(text, version).Sentence? && |SentenceAt(text, version).tree.words| == 2
  {
  }

  /** One line, without a line feed at its end. */
  lemma {:induction false} WordTextRead(version: nat)
    ensures var w := WordText(version);
            && w != "" && Terminated(w) == w + "\n"
            && SentenceAt(w + "\n", version).Sentence? && |SentenceAt(w + "\n", version).tree.words| == 2
            && ReadBlocks(w, version) == ReadAll(w + "\n", version)
  {
    WordTextLine(version);
    OneSentence(WordText(version) + "\n", [ROOT, ONE_WORD], version);
    NoFeed(WordText(version));
    LastBlock(WordText(version), version);
  }

  lemma {:induction false} LastBlock(text: string, version: nat)
    requires text != "" && GetPara(text).rest == ""
    ensures ReadBlocks(text, version) == ReadAll(GetPara(text).block, version)
  {
    var all := ReadAll(GetPara(text).block, version);
    assert all.trees + [] == all.trees;
  }

  lemma {:induction false} NoFeed(s: string)
    requires s != "" && '\n' !in s
    ensures GetPara(s) == Para(s + "\n", "") && Terminated(s) == s + "\n"
  {
    var k := IndexOf(s, '\n');
    assert forall i | 0 <= i < |s| :: s[i] != '\n';
    assert s[..|s|] == s && s[|s| - 1] in s && s + "\n" + "" == s + "\n";
  }

  lemma {:induction false} CommentBlock(rest: string, version: nat)
    ensures GetPara("#\n\n" + rest) == Para("#\n\n", rest)
    ensures Left("#\n\n", version) == Some(START.(comments := ["#"]))
  {
    var t := "#\n\n" + rest;
    assert t[1..] == "\n\n" + rest && t[2..] == "\n" + rest && t[2..][1..] == rest;
    assert IndexOf(t, '\n') == 1 && IndexOf(t[2..], '\n') == 0;
    assert t[..1] == "#" && t[2..][..0] == "";
    assert GetPara(t[2..]) == Para("\n", rest);
    assert "#" + "\n" + "\n" == "#\n\n";
    CommentRead("#", "\n", START, version);
    assert FirstLine("\n") == "" && AfterLine("\n") == "";
    assert START.comments + ["#"] == ["#"];
  }

  /** A comment, an empty line and a word: read at once the sentence has the comment, read by blocks it has not. */
  lemma {:induction false} CommentBlockLeaks(version: nat)
    ensures var text := "#\n\n" + WordText(version);
            ReadBlocks(text, version) != ReadAll(Terminated(text), version)
  {
    WordTextRead(version);
    CommentBlock(WordText(version), version);
    FirstBlockExactly("#\n\n" + WordText(version), version);
  }
}
