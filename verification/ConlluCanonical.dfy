/** Nothing that the CoNLL-U reader accepts is dropped. */
module ConlluCanonical {
  import opened Sentences
  import opened Sequences
  import opened Strings
  import opened ConlluReader
  import opened ConlluWriter
  import opened ConlluRoundTrip
  import opened ConlluSoundness

  // The other direction of the round trip of src/sentence/input_format.cpp:63-204 and output_format.cpp:43-103: a text
  // of which a sentence is read is what the writer makes of that sentence. Some things are read and not kept by design:
  // carriage returns, empty lines in front, comments behind the first other line, and how a number is written. A text
  // without them is canonical.

  datatype Kind = BlankLine | CommentLine | RangeLine | NodeLine | WordLine

  function IdOf(line: string): string { Split(line, '\t')[0] }

  /** What the reader takes a line for, by its first column. */
  function KindOf(line: string, version: nat): Kind {
    if line == "" then BlankLine
    else if line[0] == '#' then CommentLine
    else if '-' in IdOf(line) then RangeLine
    else if version >= 2 && '.' in IdOf(line) then NodeLine
    else WordLine
  }

  ghost predicate AllNumerals(parts: seq<string>) { forall i | 0 <= i < |parts| :: Numeral(parts[i]) }

  /** The numbers of a line are written as they are printed. */
  ghost predicate PlainNumbers(line: string, version: nat) {
    var cols := Split(line, '\t');
    match KindOf(line, version)
    case RangeLine => AllNumerals(Split(cols[0], '-'))
    case NodeLine => AllNumerals(Split(cols[0], '.'))
    case WordLine => Numeral(cols[0]) && (|cols| == 10 && cols[6] != "_" ==> Numeral(cols[6]))
    case _ => true
  }

  /** Where a text is: comments only, empty nodes of the root, right behind a multiword token, behind a word. */
  datatype Stage = Front | Nodes | Ranged | Inside

  /** Comments come first, and an empty node not between a multiword token and its first word. */
  function After(stage: Stage, kind: Kind): Option<Stage> {
    match kind
    case BlankLine => None
    case CommentLine => if stage.Front? then Some(Front) else None
    case RangeLine => Some(Ranged)
    case NodeLine => if stage.Ranged? then None else if stage.Inside? then Some(Inside) else Some(Nodes)
    case WordLine => Some(Inside)
  }

  /** The lines up to the first empty one end in line feeds, come in order, and have plain numbers. */
  ghost predicate Canonical(text: string, stage: Stage, version: nat)
    decreases |text|
  {
    var n, line := LineLength(text), FirstLine(text);
    && n < |text| && text[n] == '\n'
    && if line == "" then stage.Inside?
       else
         var next := After(stage, KindOf(line, version));
         PlainNumbers(line, version) && next.Some? && Canonical(text[n + 1..], next.value, version)
  }

  // ---------- one line ----------

  /** The columns of an accepted line are not empty, and in version 1 have no spaces. */
  ghost predicate Filled(cols: seq<string>, version: nat) {
    |cols| == 10 && forall k | 0 <= k < 10 :: cols[k] != "" && (version >= 2 || ' ' !in cols[k])
  }

  lemma {:induction false} AcceptedColumns(st: State, line: string, version: nat)
    requires ParseLine(st, line, version).Next?
    ensures Filled(Split(line, '\t'), version) && Join(Split(line, '\t'), '\t') == line
  {
    ColumnsChecked(Split(line, '\t'), version, 0);
    JoinSplit(line, '\t');
  }

  lemma {:induction false} ShownAsRead(s: string, version: nat)
    requires s != "" && (version >= 2 || ' ' !in s)
    ensures Underscore(Blank(s)) == s && Spaced(version, s) == s && Spaced(version, Underscore(s)) == s
  {
  }

  lemma {:induction false} WordBack(st: State, line: string, version: nat)
    requires KindOf(line, version).WordLine? && PlainNumbers(line, version)
    requires ParseLine(st, line, version).Next?
    ensures var r := ParseLine(st, line, version).state;
            && |r.words| == |st.words| + 1 && r == st.(words := r.words) && r.words[..|st.words|] == st.words
            && Join(WordColumns(r.words[|st.words|], |st.words|, version), '\t') == line
  {
    var cols := Split(line, '\t');
    AcceptedColumns(st, line, version);
    assert ParseLine(st, line, version) == ParseWord(st, cols);
    WordColumnsBack(st, cols, version);
  }

  /** The word of ten columns with the given id and head. */
  function WordWith(cols: seq<string>, id: int, head: int): Word
    requires |cols| == 10
  {
    Word(id, cols[1], cols[2], Blank(cols[3]), Blank(cols[4]), Blank(cols[5]), head, Blank(cols[7]), Blank(cols[8]),
         Blank(cols[9]), [])
  }

  lemma {:induction false} WordShown(cols: seq<string>, n: nat, head: int, version: nat)
    requires Filled(cols, version) && cols[0] == ToDecimal(n) && cols[6] == if head < 0 then "_" else ToDecimal(head)
    ensures WordColumns(WordWith(cols, n, head), n, version) == cols
  {
    ShownAsRead(cols[1], version);
    ShownAsRead(cols[2], version);
    assert Underscore(cols[2]) == cols[2];
    var shown := WordColumns(WordWith(cols, n, head), n, version);
    assert shown[1] == cols[1] && shown[2] == cols[2] && shown[6] == cols[6];
    assert forall k | 0 <= k < 10 :: Underscore(Blank(cols[k])) == cols[k];
  }

  lemma {:induction false} WordRead(st: State, cols: seq<string>)
    requires |cols| == 10 && Numeral(cols[0]) && (cols[6] != "_" ==> Numeral(cols[6])) && ParseWord(st, cols).Next?
    ensures cols[0] == ToDecimal(|st.words|)
    ensures exists head :: cols[6] == (if head < 0 then "_" else ToDecimal(head)) &&
                           ParseWord(st, cols).state == st.(words := st.words + [WordWith(cols, |st.words|, head)])
  {
    ParseNumeral(cols[0]);
    var head := if cols[6] == "_" then -1 else ParseInt(cols[6]).value;
    if cols[6] != "_" { ParseNumeral(cols[6]); }
    assert ParseWord(st, cols).state == st.(words := st.words + [WordWith(cols, |st.words|, head)]);
  }

  lemma {:induction false} WordColumnsBack(st: State, cols: seq<string>, version: nat)
    requires Filled(cols, version) && Numeral(cols[0]) && (cols[6] != "_" ==> Numeral(cols[6]))
    requires ParseWord(st, cols).Next?
    ensures var r := ParseWord(st, cols).state;
            && |r.words| == |st.words| + 1 && r == st.(words := r.words) && r.words[..|st.words|] == st.words
            && WordColumns(r.words[|st.words|], |st.words|, version) == cols
  {
    WordRead(st, cols);
    var head :| cols[6] == (if head < 0 then "_" else ToDecimal(head)) &&
                ParseWord(st, cols).state == st.(words := st.words + [WordWith(cols, |st.words|, head)]);
    WordShown(cols, |st.words|, head, version);
  }

  /** Every column of a multiword token that is not kept is an underscore. */
  lemma {:induction false} RangeColumnsEmpty(cols: seq<string>, version: nat, i: nat)
    requires |cols| == 10
    ensures MultiwordColumnError(cols, version, i) == None <==>
            forall k | i <= k < 9 :: cols[k] == "_" || (version >= 2 && k == 5 && cols[k] == "Typo=Yes")
    decreases 10 - i
  {
    if i < 9 { RangeColumnsEmpty(cols, version, i + 1); }
  }

  lemma {:induction false} RangeBack(st: State, line: string, version: nat)
    requires KindOf(line, version).RangeLine? && PlainNumbers(line, version)
    requires ParseLine(st, line, version).Next?
    ensures var r := ParseLine(st, line, version).state;
            && |r.mwts| == |st.mwts| + 1 && r == st.(mwts := r.mwts, last := r.last) && r.mwts[..|st.mwts|] == st.mwts
            && var m := r.mwts[|st.mwts|];
               && m.idFirst == |st.words| > st.last && r.last == m.idLast >= m.idFirst
               && Join(MultiwordColumns(m, version), '\t') == line
  {
    var cols := Split(line, '\t');
    AcceptedColumns(st, line, version);
    assert ParseLine(st, line, version) == ParseMultiword(st, cols, version);
    RangeColumnsBack(st, cols, version);
  }

  lemma {:induction false} RangeColumnsBack(st: State, cols: seq<string>, version: nat)
    requires Filled(cols, version) && AllNumerals(Split(cols[0], '-')) && ParseMultiword(st, cols, version).Next?
    ensures var r := ParseMultiword(st, cols, version).state;
            && |r.mwts| == |st.mwts| + 1 && r == st.(mwts := r.mwts, last := r.last) && r.mwts[..|st.mwts|] == st.mwts
            && var m := r.mwts[|st.mwts|];
               && m.idFirst == |st.words| > st.last && r.last == m.idLast >= m.idFirst
               && MultiwordColumns(m, version) == cols
  {
    var parts := Split(cols[0], '-');
    ParseNumeral(parts[0]);
    ParseNumeral(parts[1]);
    TwoParts(cols[0], '-');
    RangeColumnsEmpty(cols, version, 2);
    ShownAsRead(cols[1], version);
    ShownAsRead(cols[5], version);
    ShownAsRead(cols[9], version);
  }

  lemma {:induction false} TwoParts(s: string, sep: char)
    requires |Split(s, sep)| == 2
    ensures Split(s, sep)[0] + [sep] + Split(s, sep)[1] == s
  {
    JoinSplit(s, sep);
    assert Split(s, sep)[1..] == [Split(s, sep)[1]];
  }

  lemma {:induction false} NodeBack(st: State, line: string, version: nat)
    requires KindOf(line, version).NodeLine? && PlainNumbers(line, version)
    requires ParseLine(st, line, version).Next?
    ensures var r := ParseLine(st, line, version).state;
            && |r.empties| == |st.empties| + 1 && r == st.(empties := r.empties)
            && r.empties[..|st.empties|] == st.empties
            && var x := r.empties[|st.empties|];
               x.id == |st.words| - 1 >= 0 && x.index >= 0 && Join(EmptyNodeColumns(x, x.id), '\t') == line
  {
    var cols := Split(line, '\t');
    AcceptedColumns(st, line, version);
    assert ParseLine(st, line, version) == ParseEmptyNode(st, cols);
    NodeColumnsBack(st, cols, version);
  }

  lemma {:induction false} NodeColumnsBack(st: State, cols: seq<string>, version: nat)
    requires version >= 2 && Filled(cols, version) && AllNumerals(Split(cols[0], '.')) && ParseEmptyNode(st, cols).Next?
    ensures var r := ParseEmptyNode(st, cols).state;
            && |r.empties| == |st.empties| + 1 && r == st.(empties := r.empties)
            && r.empties[..|st.empties|] == st.empties
            && var x := r.empties[|st.empties|];
               x.id == |st.words| - 1 >= 0 && x.index >= 0 && EmptyNodeColumns(x, x.id) == cols
  {
    var parts := Split(cols[0], '.');
    ParseNumeral(parts[0]);
    ParseNumeral(parts[1]);
    TwoParts(cols[0], '.');
    ShownAsRead(cols[2], version);
    ShownAsRead(cols[3], version);
    ShownAsRead(cols[4], version);
    ShownAsRead(cols[5], version);
    ShownAsRead(cols[8], version);
    ShownAsRead(cols[9], version);
  }

  // ---------- what is still to come ----------

  /** A state that can be at this stage. */
  ghost predicate Fits(st: State, stage: Stage) {
    && |st.words| >= 1 && (stage.Inside? ==> |st.words| > 1)
    && (stage.Ranged? ==> st.last >= |st.words|)
  }

  /** What is read later goes behind what is there, and belongs to later words; behind a multiword token comes a word,
      and comments only come in front. */
  ghost predicate Later(st: State, stage: Stage, end: State) {
    && st.words <= end.words && st.mwts <= end.mwts && st.empties <= end.empties
    && (!stage.Front? ==> end.comments == st.comments)
    && (forall j | |st.mwts| <= j < |end.mwts| :: end.mwts[j].idFirst >= |st.words|)
    && (forall e | |st.empties| <= e < |end.empties| ::
          end.empties[e].id >= if stage.Ranged? then |st.words| else |st.words| - 1)
    && (stage.Ranged? ==> |end.words| > |st.words|)
  }

  /** One accepted line of a canonical text. */
  ghost predicate Steps(st: State, stage: Stage, kind: Kind, next: State) {
    match kind
    case WordLine => |next.words| == |st.words| + 1 && next == st.(words := next.words) && st.words <= next.words
    case RangeLine =>
      && |next.mwts| == |st.mwts| + 1 && next == st.(mwts := next.mwts, last := next.last) && st.mwts <= next.mwts
      && next.mwts[|st.mwts|].idFirst == |st.words| && next.last >= |st.words| && !stage.Ranged?
    case NodeLine =>
      && |next.empties| == |st.empties| + 1 && next == st.(empties := next.empties) && st.empties <= next.empties
      && next.empties[|st.empties|].id == |st.words| - 1 && !stage.Ranged?
    case _ => false
  }

  lemma {:induction false} StepLater(st: State, stage: Stage, kind: Kind, next: State, end: State)
    requires Steps(st, stage, kind, next) && After(stage, kind).Some? && Fits(st, stage)
    requires Later(next, After(stage, kind).value, end)
    ensures Later(st, stage, end)
  {
    forall j | |st.mwts| <= j < |end.mwts| ensures end.mwts[j].idFirst >= |st.words| {
      if j == |st.mwts| && kind.RangeLine? { assert end.mwts[j] == next.mwts[j]; }
    }
    forall e | |st.empties| <= e < |end.empties|
      ensures end.empties[e].id >= if stage.Ranged? then |st.words| else |st.words| - 1
    {
      if e == |st.empties| && kind.NodeLine? { assert end.empties[e] == next.empties[e]; }
    }
  }

  lemma {:induction false} LineSteps(st: State, stage: Stage, line: string, version: nat)
    requires line != "" && line[0] != '#' && PlainNumbers(line, version) && After(stage, KindOf(line, version)).Some?
    requires Fits(st, stage) && ParseLine(st, line, version).Next?
    ensures var next := ParseLine(st, line, version).state;
            && Steps(st, stage, KindOf(line, version), next)
            && Fits(next, After(stage, KindOf(line, version)).value)
  {
    match KindOf(line, version) {
      case WordLine => WordBack(st, line, version);
      case RangeLine => RangeBack(st, line, version);
      case NodeLine => NodeBack(st, line, version);
    }
  }

  /** The first line of a canonical text and what is read behind it. */
  lemma {:induction false} FirstOf(text: string, stage: Stage, version: nat)
    requires Canonical(text, stage, version)
    ensures var line := FirstLine(text);
            text == line + "\n" + AfterLine(text) && |AfterLine(text)| < |text|
            && AfterLine(text) == text[LineLength(text) + 1..]
  {
    var n := LineLength(text);
    assert text[n..][0] == '\n' && text[n..][1..] == text[n + 1..];
    assert text == text[..n] + [text[n]] + text[n + 1..];
  }

  lemma {:induction false} ReadLater(text: string, stage: Stage, st: State, version: nat)
    requires Canonical(text, stage, version) && Fits(st, stage) && Read(text, st, version).Finished?
    ensures Later(st, stage, Read(text, st, version).state)
    decreases |text|
  {
    var line, rest := FirstLine(text), AfterLine(text);
    FirstOf(text, stage, version);
    if line != "" {
      var kind := KindOf(line, version);
      if kind.CommentLine? {
        ReadLater(rest, Front, if NoWords(st) then st.(comments := st.comments + [line]) else st, version);
      } else {
        LineSteps(st, stage, line, version);
        var next := ParseLine(st, line, version).state;
        ReadLater(rest, After(stage, kind).value, next, version);
        StepLater(st, stage, kind, next, Read(text, st, version).state);
      }
    }
  }

  // ---------- which lines are accepted ----------

  /** Spaces are allowed in forms, lemmas and MISC only, and that since version 2. */
  predicate ColumnFits(cols: seq<string>, version: nat, k: nat)
    requires k < |cols|
  {
    cols[k] != "" && (' ' in cols[k] ==> version >= 2 && (k == 1 || k == 2 || k == 9))
  }

  lemma {:induction false} ColumnsExactly(cols: seq<string>, version: nat, i: nat)
    requires |cols| == 10
    ensures ColumnError(cols, version, i) == None <==> forall k | i <= k < 10 :: ColumnFits(cols, version, k)
    decreases 10 - i
  {
    if i < 10 {
      ColumnsExactly(cols, version, i + 1);
      if !ColumnFits(cols, version, i) { assert ColumnError(cols, version, i).Some?; }
    }
  }

  /** A multiword token starts at the next word, behind the words of the one before, and its other columns are empty. */
  predicate RangeFits(st: State, cols: seq<string>, version: nat)
    requires |cols| == 10
  {
    var ids := Split(cols[0], '-');
    && |ids| == 2 && ParseInt(ids[0]) == Some(|st.words|) && ParseInt(ids[1]).Some?
    && st.last < |st.words| <= ParseInt(ids[1]).value
    && forall k | 2 <= k < 9 :: cols[k] == "_" || (version >= 2 && k == 5 && cols[k] == "Typo=Yes")
  }

  /** An empty node has the number of the last word and the next index, and neither head nor relation. */
  predicate NodeFits(st: State, cols: seq<string>)
    requires |cols| == 10
  {
    var ids := Split(cols[0], '.');
    && |ids| == 2 && ParseInt(ids[0]) == Some(|st.words| - 1) && ParseInt(ids[1]).Some?
    && NextEmptyNode(st.empties, |st.words| - 1, ParseInt(ids[1]).value) && cols[6] == cols[7] == "_"
  }

  /** A word has the next number, and an underscore or a number that is not negative as its head. */
  predicate WordFits(st: State, cols: seq<string>)
    requires |cols| == 10
  {
    && ParseInt(cols[0]) == Some(|st.words|)
    && (cols[6] == "_" || (ParseInt(cols[6]).Some? && ParseInt(cols[6]).value >= 0))
  }

  predicate LineFits(st: State, line: string, version: nat) {
    var cols := Split(line, '\t');
    && |cols| == 10 && (forall k | 0 <= k < 10 :: ColumnFits(cols, version, k))
    && if '-' in cols[0] then RangeFits(st, cols, version)
       else if version >= 2 && '.' in cols[0] then NodeFits(st, cols)
       else WordFits(st, cols)
  }

  /** Exactly these lines are accepted. */
  lemma {:induction false} AcceptedExactly(st: State, line: string, version: nat)
    ensures ParseLine(st, line, version).Next? <==> LineFits(st, line, version)
  {
    var cols := Split(line, '\t');
    if |cols| == 10 {
      ColumnsExactly(cols, version, 0);
      RangeColumnsEmpty(cols, version, 2);
      RangeExactly(st, cols, version);
      NodeExactly(st, cols);
      WordExactly(st, cols);
    }
  }

  lemma {:induction false} RangeExactly(st: State, cols: seq<string>, version: nat)
    requires |cols| == 10
    ensures ParseMultiword(st, cols, version).Next? <==> RangeFits(st, cols, version)
  {
    RangeColumnsEmpty(cols, version, 2);
  }

  lemma {:induction false} NodeExactly(st: State, cols: seq<string>)
    requires |cols| == 10
    ensures ParseEmptyNode(st, cols).Next? <==> NodeFits(st, cols)
  {
  }

  lemma {:induction false} WordExactly(st: State, cols: seq<string>)
    requires |cols| == 10
    ensures ParseWord(st, cols).Next? <==> WordFits(st, cols)
    ensures ParseWord(st, cols).Next? ==>
              var h := ParseWord(st, cols).state.words[|st.words|].head;
              if cols[6] == "_" then h == -1 else ParseInt(cols[6]) == Some(h)
  {
  }

  // ---------- what was read is what is written ----------

  /** The tree of a state, as far as the writer looks at it. */
  ghost predicate Shows(t: Tree, end: State, version: nat) {
    && Printable(t) && |t.words| == |end.words| && t.mwts == end.mwts && t.empties == end.empties
    && t.comments == end.comments
    && forall k | 1 <= k < |t.words| :: WordColumns(t.words[k], k, version) == WordColumns(end.words[k], k, version)
  }

  /** What the writer still writes when i - 1 is the last word that is out, and behind it the line of the multiword
      token that starts at word i, if `ranged` says so. */
  ghost function ToWrite(t: Tree, version: nat, i: nat, j: nat, e: nat, ranged: bool): string
    requires Printable(t) && (if ranged then 0 < i < |t.words| else 0 < i <= |t.words|)
  {
    if ranged then Line(WordColumns(t.words[i], i, version)) + EmptiesFrom(t, version, i, j, e)
    else EmptiesFrom(t, version, i - 1, j, e)
  }

  lemma {:induction false} NoNodes(t: Tree, version: nat, i: nat, j: nat, e: nat)
    requires Printable(t) && 0 < i <= |t.words| && (e < |t.empties| ==> t.empties[e].id >= i)
    ensures EmptiesFrom(t, version, i - 1, j, e) == WordsFrom(t, version, i, j, e)
  {
  }

  lemma {:induction false} WordWritten(t: Tree, version: nat, i: nat, j: nat, e: nat, ranged: bool)
    requires Printable(t) && 0 < i < |t.words|
    requires e < |t.empties| ==> t.empties[e].id >= i
    requires j < |t.mwts| ==> t.mwts[j].idFirst > i
    ensures ToWrite(t, version, i, j, e, ranged) ==
            Line(WordColumns(t.words[i], i, version)) + ToWrite(t, version, i + 1, j, e, false)
  {
    if !ranged {
      NoNodes(t, version, i, j, e);
      assert WordsFrom(t, version, i, j, e) == WordPart(t, version, i, j) + EmptiesFrom(t, version, i, j, e);
      assert WordPart(t, version, i, j) == "" + Line(WordColumns(t.words[i], i, version));
      assert "" + Line(WordColumns(t.words[i], i, version)) == Line(WordColumns(t.words[i], i, version));
    }
  }

  lemma {:induction false} RangeWritten(t: Tree, version: nat, i: nat, j: nat, e: nat)
    requires Printable(t) && 0 < i < |t.words| && j < |t.mwts| && t.mwts[j] in t.mwts && t.mwts[j].idFirst == i
    requires e < |t.empties| ==> t.empties[e].id >= i
    ensures ToWrite(t, version, i, j, e, false) ==
            Line(MultiwordColumns(t.mwts[j], version)) + ToWrite(t, version, i, j + 1, e, true)
  {
    NoNodes(t, version, i, j, e);
    assert WordsFrom(t, version, i, j, e) == WordPart(t, version, i, j) + EmptiesFrom(t, version, i, j + 1, e);
    Assoc(Line(MultiwordColumns(t.mwts[j], version)), Line(WordColumns(t.words[i], i, version)),
          EmptiesFrom(t, version, i, j + 1, e));
  }

  lemma {:induction false} NodeWritten(t: Tree, version: nat, i: nat, j: nat, e: nat)
    requires Printable(t) && 0 < i <= |t.words| && version >= 2
    requires e < |t.empties| && t.empties[e] in t.empties && t.empties[e].id == i - 1
    ensures ToWrite(t, version, i, j, e, false) ==
            Line(EmptyNodeColumns(t.empties[e], i - 1)) + ToWrite(t, version, i, j, e + 1, false)
  {
  }

  lemma {:induction false} EndWritten(t: Tree, version: nat)
    requires Printable(t)
    ensures ToWrite(t, version, |t.words|, |t.mwts|, |t.empties|, false) == "\n"
  {
    NoNodes(t, version, |t.words|, |t.mwts|, |t.empties|);
  }

  /** What the writer has still to write at a state. */
  ghost function Remaining(t: Tree, version: nat, st: State, stage: Stage): string
    requires Printable(t)
    requires if stage.Ranged? then 0 < |st.words| < |t.words| else 0 < |st.words| <= |t.words|
  {
    ToWrite(t, version, |st.words|, |st.mwts|, |st.empties|, stage.Ranged?)
  }

  /** One accepted line is the next one that the writer writes. */
  lemma {:induction false} LineWritten(t: Tree, end: State, version: nat, st: State, stage: Stage, line: string)
    requires line != "" && line[0] != '#' && PlainNumbers(line, version) && After(stage, KindOf(line, version)).Some?
    requires Fits(st, stage) && ParseLine(st, line, version).Next? && Shows(t, end, version)
    requires Later(ParseLine(st, line, version).state, After(stage, KindOf(line, version)).value, end)
    ensures var next, after := ParseLine(st, line, version).state, After(stage, KindOf(line, version)).value;
            && |st.words| <= |t.words| && (stage.Ranged? ==> |st.words| < |t.words|)
            && 0 < |next.words| <= |t.words| && (after.Ranged? ==> |next.words| < |t.words|)
            && Remaining(t, version, st, stage) == line + "\n" + Remaining(t, version, next, after)
  {
    var next := ParseLine(st, line, version).state;
    match KindOf(line, version) {
      case WordLine => WordLineWritten(t, end, version, st, stage, line);
      case RangeLine => RangeLineWritten(t, end, version, st, stage, line);
      case NodeLine => NodeLineWritten(t, end, version, st, stage, line);
    }
  }

  lemma {:induction false} WordLineWritten(t: Tree, end: State, version: nat, st: State, stage: Stage, line: string)
    requires KindOf(line, version).WordLine? && PlainNumbers(line, version)
    requires Fits(st, stage) && ParseLine(st, line, version).Next? && Shows(t, end, version)
    requires Later(ParseLine(st, line, version).state, Inside, end)
    ensures |st.words| < |t.words| && |ParseLine(st, line, version).state.words| == |st.words| + 1
    ensures Remaining(t, version, st, stage) ==
            line + "\n" + Remaining(t, version, ParseLine(st, line, version).state, Inside)
  {
    WordBack(st, line, version);
    WordRemains(t, end, version, st, stage, ParseLine(st, line, version).state, line);
  }

  /** The writer's side of it: the next word is the one that was read. */
  lemma {:induction false} WordRemains(t: Tree, end: State, version: nat, st: State, stage: Stage, next: State,
      line: string)
    requires Shows(t, end, version) && 0 < |st.words| && Later(next, Inside, end)
    requires next == st.(words := next.words) && |next.words| == |st.words| + 1
    requires Join(WordColumns(next.words[|st.words|], |st.words|, version), '\t') == line
    ensures |st.words| < |t.words|
    ensures Remaining(t, version, st, stage) == line + "\n" + Remaining(t, version, next, Inside)
  {
    var i := |st.words|;
    assert end.words[i] == next.words[i];
    WordWritten(t, version, i, |st.mwts|, |st.empties|, stage.Ranged?);
  }

  lemma {:induction false} RangeLineWritten(t: Tree, end: State, version: nat, st: State, stage: Stage, line: string)
    requires KindOf(line, version).RangeLine? && PlainNumbers(line, version)
    requires Fits(st, stage) && ParseLine(st, line, version).Next? && Shows(t, end, version)
    requires Later(ParseLine(st, line, version).state, Ranged, end)
    ensures |st.words| < |t.words| && !stage.Ranged?
    ensures ParseLine(st, line, version).state.words == st.words
    ensures Remaining(t, version, st, stage) ==
            line + "\n" + Remaining(t, version, ParseLine(st, line, version).state, Ranged)
  {
    RangeBack(st, line, version);
    RangeRemains(t, end, version, st, ParseLine(st, line, version).state, line, stage);
  }

  /** The writer's side of it: the next multiword token is the one that was read. */
  lemma {:induction false} RangeRemains(t: Tree, end: State, version: nat, st: State, next: State, line: string,
      stage: Stage)
    requires Shows(t, end, version) && 0 < |st.words| && Later(next, Ranged, end) && !stage.Ranged?
    requires next == st.(mwts := next.mwts, last := next.last) && |next.mwts| == |st.mwts| + 1
    requires var m := next.mwts[|st.mwts|];
             m.idFirst == |st.words| <= m.idLast && Join(MultiwordColumns(m, version), '\t') == line
    ensures |st.words| < |t.words|
    ensures Remaining(t, version, st, stage) == line + "\n" + Remaining(t, version, next, Ranged)
  {
    var j := |st.mwts|;
    assert end.mwts[j] == next.mwts[j] && t.mwts[j] in t.mwts;
    RangeWritten(t, version, |st.words|, j, |st.empties|);
  }

  lemma {:induction false} NodeLineWritten(t: Tree, end: State, version: nat, st: State, stage: Stage, line: string)
    requires KindOf(line, version).NodeLine? && PlainNumbers(line, version) && After(stage, NodeLine).Some?
    requires Fits(st, stage) && ParseLine(st, line, version).Next? && Shows(t, end, version)
    requires Later(ParseLine(st, line, version).state, After(stage, NodeLine).value, end)
    ensures |st.words| <= |t.words| && !stage.Ranged? && !After(stage, NodeLine).value.Ranged?
    ensures ParseLine(st, line, version).state.words == st.words
    ensures Remaining(t, version, st, stage) ==
            line + "\n" + Remaining(t, version, ParseLine(st, line, version).state, After(stage, NodeLine).value)
  {
    var next := ParseLine(st, line, version).state;
    NodeBack(st, line, version);
    NodeRemains(t, end, version, st, stage, next, line);
  }

  /** The writer's side of it: the next empty node is the one that was read. */
  lemma {:induction false} NodeRemains(t: Tree, end: State, version: nat, st: State, stage: Stage, next: State,
      line: string)
    requires Shows(t, end, version) && version >= 2 && !stage.Ranged? && 0 < |st.words| <= |t.words|
    requires next == st.(empties := next.empties) && |next.empties| == |st.empties| + 1 && next.empties <= end.empties
    requires var x := next.empties[|st.empties|];
             x.id == |st.words| - 1 && x.index >= 0 && Join(EmptyNodeColumns(x, x.id), '\t') == line
    ensures Remaining(t, version, st, stage) ==
            line + "\n" + Remaining(t, version, next, After(stage, NodeLine).value)
  {
    NodeAt(t, end, next, |st.empties|);
    NodeWritten(t, version, |st.words|, |st.mwts|, |st.empties|);
  }

  lemma {:induction false} NodeAt(t: Tree, end: State, next: State, e: nat)
    requires e < |next.empties| && next.empties <= end.empties && t.empties == end.empties
    ensures e < |t.empties| && t.empties[e] == next.empties[e] && t.empties[e] in t.empties
  {
  }

  lemma {:induction false} BodyWritten(text: string, stage: Stage, st: State, version: nat, end: State, rest: string,
      t: Tree)
    requires Canonical(text, stage, version) && Fits(st, stage) && Read(text, st, version) == Finished(end, rest)
    requires !KindOf(FirstLine(text), version).CommentLine? && Shows(t, end, version)
    ensures |st.words| <= |t.words| && (stage.Ranged? ==> |st.words| < |t.words|) && end.comments == st.comments
    ensures text == Remaining(t, version, st, stage) + rest
    decreases |text|
  {
    var line, later := FirstLine(text), AfterLine(text);
    FirstOf(text, stage, version);
    ReadLater(text, stage, st, version);
    if line == "" {
      EndWritten(t, version);
    } else {
      LineSteps(st, stage, line, version);
      var next, after := ParseLine(st, line, version).state, After(stage, KindOf(line, version)).value;
      ReadLater(later, after, next, version);
      LineWritten(t, end, version, st, stage, line);
      BodyWritten(later, after, next, version, end, rest, t);
      Assoc(line + "\n", Remaining(t, version, next, after), rest);
    }
  }

  lemma {:induction false} CommentStep(text: string, st: State, version: nat) returns (next: State)
    requires Canonical(text, Front, version) && NoWords(st) && KindOf(FirstLine(text), version).CommentLine?
    ensures next == st.(comments := st.comments + [FirstLine(text)]) && NoWords(next)
    ensures Canonical(AfterLine(text), Front, version) && |AfterLine(text)| < |text|
    ensures Read(text, st, version) == Read(AfterLine(text), next, version)
    ensures text == FirstLine(text) + "\n" + AfterLine(text)
  {
    FirstOf(text, Front, version);
    next := st.(comments := st.comments + [FirstLine(text)]);
  }

  lemma {:induction false} FrontWritten(text: string, st: State, version: nat, end: State, rest: string, t: Tree)
    requires Canonical(text, Front, version) && NoWords(st) && Read(text, st, version) == Finished(end, rest)
    requires Shows(t, end, version)
    ensures |st.words| <= |t.words| && st.comments <= end.comments
    ensures text == CommentLines(end.comments[|st.comments|..]) + Remaining(t, version, st, Front) + rest
    decreases |text|
  {
    var line := FirstLine(text);
    if KindOf(line, version).CommentLine? {
      var next := CommentStep(text, st, version);
      FrontWritten(AfterLine(text), next, version, end, rest, t);
      assert end.comments[|st.comments|] == next.comments[|st.comments|];
      CommentFirst(text, end.comments, |st.comments|, Remaining(t, version, next, Front), rest, AfterLine(text));
    } else {
      BodyWritten(text, Front, st, version, end, rest, t);
      NoCommentLeft(end.comments, Remaining(t, version, st, Front));
    }
  }

  lemma {:induction false} CommentFirst(text: string, comments: seq<string>, k: nat, body: string, rest: string,
      later: string)
    requires k < |comments| && text == comments[k] + "\n" + later
    requires later == CommentLines(comments[k + 1..]) + body + rest
    ensures text == CommentLines(comments[k..]) + body + rest
  {
    assert comments[k..][1..] == comments[k + 1..];
    var line, more := comments[k] + "\n", CommentLines(comments[k + 1..]);
    Assoc(line, more, body);
    Assoc(line, more + body, rest);
  }

  lemma {:induction false} NoCommentLeft(comments: seq<string>, body: string)
    ensures CommentLines(comments[|comments|..]) + body == body
  {
    assert comments[|comments|..] == [] && "" + body == body;
  }

  lemma {:induction false} WriteParts(t: Tree, version: nat)
    requires Printable(t)
    ensures Write(t, version) == CommentLines(t.comments) + Remaining(t, version, START, Front)
  {
    var body := EmptiesFrom(t, version, 0, 0, 0);
    assert WordsFrom(t, version, 0, 0, 0) == WordPart(t, version, 0, 0) + body;
    assert WordPart(t, version, 0, 0) == "" && "" + body == body;
  }

  lemma {:induction false} TreeShows(end: State, version: nat)
    requires Printable(Tree(WithChildren(end.words), end.mwts, end.empties, end.comments))
    ensures Shows(Tree(WithChildren(end.words), end.mwts, end.empties, end.comments), end, version)
  {
  }

  /** Nothing that is accepted is dropped: if a sentence is read from a canonical text, what it is read from is exactly
      what is written for it. */
  lemma {:induction false} AcceptedIsWritten(text: string, version: nat)
    requires Canonical(text, Front, version) && SentenceAt(text, version).Sentence?
    ensures var r := SentenceAt(text, version); Printable(r.tree) && text == Write(r.tree, version) + r.rest
  {
    AcceptedIsWellFormed(text, version);
    var tree, rest := SentenceAt(text, version).tree, SentenceAt(text, version).rest;
    var end := Read(text, START, version).state;
    WellFormedPrints(tree, version);
    TreeShows(end, version);
    FrontWritten(text, START, version, end, rest, tree);
    WriteParts(tree, version);
    assert end.comments[|START.comments|..] == tree.comments;
  }

  // ---------- every written text is canonical ----------

  lemma {:induction false} LineCanonical(line: string, tail: string, stage: Stage, next: Stage, version: nat)
    requires NoBreaks(line) && line != "" && PlainNumbers(line, version)
    requires After(stage, KindOf(line, version)) == Some(next) && Canonical(tail, next, version)
    ensures Canonical(line + "\n" + tail, stage, version)
  {
    var text := line + "\n" + tail;
    ReadOne(line, tail);
    LineLengthAt(line, tail);
    assert text[|line|] == '\n' && text[|line| + 1..] == tail;
  }

  lemma {:induction false} WordLineCanonical(w: Word, i: nat, tail: string, stage: Stage, version: nat)
    requires WordOk(w, i, version) && Canonical(tail, Inside, version)
    ensures Canonical(Line(WordColumns(w, i, version)) + tail, stage, version)
  {
    var cols := WordColumns(w, i, version);
    WordColumnsFit(w, i, version);
    LineColumns(cols, version);
    DecimalPlain(i);
    PrintsNumeral(i);
    if w.head >= 0 { PrintsNumeral(w.head); }
    assert KindOf(Join(cols, '\t'), version).WordLine?;
    LineCanonical(Join(cols, '\t'), tail, stage, Inside, version);
  }

  lemma {:induction false} RangeLineCanonical(m: MultiwordToken, tail: string, stage: Stage, version: nat)
    requires MultiwordOk(m, version) && 0 <= m.idFirst && 0 <= m.idLast && Canonical(tail, Ranged, version)
    ensures Canonical(Line(MultiwordColumns(m, version)) + tail, stage, version)
  {
    var cols := MultiwordColumns(m, version);
    MultiwordColumnsFit(m, version);
    LineColumns(cols, version);
    TwoNumbers(m.idFirst, m.idLast, '-');
    assert cols[0] == ToDecimal(m.idFirst) + ['-'] + ToDecimal(m.idLast);
    PrintsNumeral(m.idFirst);
    PrintsNumeral(m.idLast);
    assert KindOf(Join(cols, '\t'), version).RangeLine?;
    LineCanonical(Join(cols, '\t'), tail, stage, Ranged, version);
  }

  lemma {:induction false} NodeLineCanonical(x: EmptyNode, tail: string, stage: Stage, next: Stage, version: nat)
    requires EmptyNodeOk(x, version) && After(stage, NodeLine) == Some(next) && Canonical(tail, next, version)
    ensures Canonical(Line(EmptyNodeColumns(x, x.id)) + tail, stage, version)
  {
    NodeLinePlain(x, version);
    LineCanonical(Join(EmptyNodeColumns(x, x.id), '\t'), tail, stage, next, version);
  }

  lemma {:induction false} NodeLinePlain(x: EmptyNode, version: nat)
    requires EmptyNodeOk(x, version)
    ensures var line := Join(EmptyNodeColumns(x, x.id), '\t');
            NoBreaks(line) && line != "" && KindOf(line, version).NodeLine? && PlainNumbers(line, version)
  {
    var cols := EmptyNodeColumns(x, x.id);
    EmptyNodeColumnsFit(x, version);
    LineColumns(cols, version);
    TwoNumbers(x.id, x.index, '.');
    assert cols[0] == ToDecimal(x.id) + ['.'] + ToDecimal(x.index);
    PrintsNumeral(x.id);
    PrintsNumeral(x.index);
  }

  /** The stages at which the words below i are written. */
  predicate StageAt(stage: Stage, i: nat) {
    if i <= 1 then stage.Front? || stage.Nodes? else stage.Inside?
  }

  lemma {:induction false} WordPartCanonical(t: Tree, version: nat, i: nat, j: nat, e: nat, tail: string, stage: Stage)
    requires WellFormed(t, version) && Printable(t) && Ahead(t, i, j, e) && 0 < i < |t.words|
    requires Canonical(tail, Inside, version)
    ensures Canonical(WordPart(t, version, i, j) + tail, stage, version)
  {
    var second := Line(WordColumns(t.words[i], i, version));
    assert WordOk(t.words[i], i, version);
    if StartsAt(t, i, j) {
      assert t.mwts[j] in t.mwts && MultiwordOk(t.mwts[j], version);
      WordLineCanonical(t.words[i], i, tail, Ranged, version);
      RangeLineCanonical(t.mwts[j], second + tail, stage, version);
      Assoc(Line(MultiwordColumns(t.mwts[j], version)), second, tail);
    } else {
      WordLineCanonical(t.words[i], i, tail, stage, version);
      assert "" + second == second;
    }
  }

  lemma {:induction false} WordsCanonical(t: Tree, version: nat, i: nat, j: nat, e: nat, rest: string, stage: Stage)
    requires WellFormed(t, version) && Printable(t) && Ahead(t, i, j, e) && 0 < i && StageAt(stage, i)
    ensures Canonical(WordsFrom(t, version, i, j, e) + rest, stage, version)
    decreases |t.words| - i, 1, 0
  {
    if i == |t.words| {
      ReadOne("", rest);
      assert "" + "\n" + rest == "\n" + rest;
    } else {
      var j' := if StartsAt(t, i, j) then j + 1 else j;
      var body := EmptiesFrom(t, version, i, j', e);
      AheadOfWord(t, version, i, j, e);
      EmptiesCanonical(t, version, i, j', e, rest, Inside);
      WordPartCanonical(t, version, i, j, e, body + rest, stage);
      Assoc(WordPart(t, version, i, j), body, rest);
    }
  }

  lemma {:induction false} AheadOfWord(t: Tree, version: nat, i: nat, j: nat, e: nat)
    requires WellFormed(t, version) && Ahead(t, i, j, e) && i < |t.words|
    ensures var j' := if StartsAt(t, i, j) then j + 1 else j;
            Ahead(t, i, j', e) && (j' < |t.mwts| ==> t.mwts[j'].idFirst > i)
  {
  }

  lemma {:induction false} EmptiesCanonical(t: Tree, version: nat, i: nat, j: nat, e: nat, rest: string, stage: Stage)
    requires WellFormed(t, version) && Printable(t) && Ahead(t, i, j, e) && i < |t.words| && StageAt(stage, i + 1)
    requires j < |t.mwts| ==> t.mwts[j].idFirst > i
    ensures Canonical(EmptiesFrom(t, version, i, j, e) + rest, stage, version)
    decreases |t.words| - i, 0, |t.empties| - e
  {
    AheadNext(t, version, i, j, e);
    if version >= 2 && e < |t.empties| && t.empties[e].id == i {
      var next := NodeStage(stage, i);
      EmptiesCanonical(t, version, i, j, e + 1, rest, next);
      NodeCanonical(t, version, i, j, e, rest, stage, next);
    } else {
      WordsCanonical(t, version, i + 1, j, e, rest, stage);
      NoNodes(t, version, i + 1, j, e);
    }
  }

  lemma {:induction false} NodeStage(stage: Stage, i: nat) returns (next: Stage)
    requires StageAt(stage, i + 1)
    ensures StageAt(next, i + 1) && After(stage, NodeLine) == Some(next)
  {
    next := if stage.Inside? then Inside else Nodes;
  }

  lemma {:induction false} NodeCanonical(t: Tree, version: nat, i: nat, j: nat, e: nat, rest: string, stage: Stage,
      next: Stage)
    requires WellFormed(t, version) && Printable(t) && i < |t.words| && e < |t.empties| && t.empties[e].id == i
    requires t.empties[e] in t.empties && After(stage, NodeLine) == Some(next)
    requires Canonical(EmptiesFrom(t, version, i, j, e + 1) + rest, next, version)
    ensures Canonical(EmptiesFrom(t, version, i, j, e) + rest, stage, version)
  {
    assert EmptyNodeOk(t.empties[e], version);
    FirstEmptyNode(t, version, i, j, e, rest);
    NodeLineCanonical(t.empties[e], EmptiesFrom(t, version, i, j, e + 1) + rest, stage, next, version);
  }

  lemma {:induction false} CommentsCanonical(comments: seq<string>, tail: string, version: nat)
    requires (forall c | c in comments :: CommentOk(c)) && Canonical(tail, Front, version)
    ensures Canonical(CommentLines(comments) + tail, Front, version)
    decreases |comments|
  {
    if comments == [] {
      assert "" + tail == tail;
    } else {
      var more := CommentLines(comments[1..]);
      assert comments[0] in comments && forall c | c in comments[1..] :: c in comments;
      CommentsCanonical(comments[1..], tail, version);
      LineCanonical(comments[0], more + tail, Front, Front, version);
      Assoc(comments[0] + "\n", more, tail);
    }
  }

  /** Every sentence that can be carried is written as a canonical text. */
  lemma {:induction false} WrittenIsCanonical(t: Tree, version: nat, rest: string)
    requires WellFormed(t, version)
    ensures Printable(t) && Canonical(Write(t, version) + rest, Front, version)
  {
    WellFormedPrints(t, version);
    StartsAhead(t, version);
    AheadOfWord(t, version, 0, 0, 0);
    WriteParts(t, version);
    EmptiesCanonical(t, version, 0, 0, 0, rest, Front);
    CommentsCanonical(t.comments, EmptiesFrom(t, version, 0, 0, 0) + rest, version);
    Assoc(CommentLines(t.comments), EmptiesFrom(t, version, 0, 0, 0), rest);
  }

  // ---------- any text ----------

  /** A text up to the end of its first sentence, without the carriage returns, empty lines and comments that are read
      and not kept: `inside` says that a word was read before. */
  function Tidied(text: string, inside: bool, version: nat): string
    decreases |text|
  {
    if text == "" then ""
    else
      var line, rest := FirstLine(text), AfterLine(text);
      match KindOf(line, version)
      case BlankLine =>
        if inside then "\n" + rest
        else if |rest| < |text| then Tidied(rest, false, version)
        else text
      case CommentLine => if inside then Tidied(rest, true, version) else line + "\n" + Tidied(rest, false, version)
      case WordLine => line + "\n" + Tidied(rest, true, version)
      case _ => line + "\n" + Tidied(rest, inside, version)
  }

  /** What is left out makes no difference to the reader, whatever the text. */
  lemma {:induction false} TidiedReads(text: string, st: State, version: nat)
    requires |st.words| >= 1
    ensures Read(Tidied(text, !NoWords(st), version), st, version) == Read(text, st, version)
    decreases |text|
  {
    if text != "" {
      var line, rest, inside := FirstLine(text), AfterLine(text), !NoWords(st);
      FirstLineNoBreaks(text);
      match KindOf(line, version) {
        case BlankLine => TidiedBlank(text, st, version);
        case CommentLine =>
          if inside {
            TidiedReads(rest, st, version);
          } else {
            var next := st.(comments := st.comments + [line]);
            TidiedReads(rest, next, version);
            CommentRead(line, Tidied(rest, false, version), st, version);
          }
        case _ => TidiedLine(text, st, version);
      }
    }
  }

  lemma {:induction false} TidiedBlank(text: string, st: State, version: nat)
    requires |st.words| >= 1 && text != "" && FirstLine(text) == ""
    ensures Read(Tidied(text, !NoWords(st), version), st, version) == Read(text, st, version)
    decreases |text|, 0
  {
    var rest := AfterLine(text);
    if !NoWords(st) {
      ReadOne("", rest);
      assert "" + "\n" + rest == "\n" + rest;
    } else if |rest| < |text| {
      TidiedReads(rest, st, version);
    }
  }

  lemma {:induction false} TidiedLine(text: string, st: State, version: nat)
    requires |st.words| >= 1 && text != "" && FirstLine(text) != "" && FirstLine(text)[0] != '#'
    requires NoBreaks(FirstLine(text))
    ensures Read(Tidied(text, !NoWords(st), version), st, version) == Read(text, st, version)
    decreases |text|, 0
  {
    var line, rest := FirstLine(text), AfterLine(text);
    var inside := TidiedStep(text, !NoWords(st), version);
    ReadStep(line, Tidied(rest, inside, version), st, version);
    var r := ParseLine(st, line, version);
    assert Read(text, st, version) == Continue(r, rest, version);
    if r.Next? {
      WordsCounted(st, line, version);
      TidiedReads(rest, r.state, version);
    }
  }

  lemma {:induction false} TidiedStep(text: string, inside: bool, version: nat) returns (r: bool)
    requires text != "" && FirstLine(text) != "" && FirstLine(text)[0] != '#'
    ensures r == (inside || KindOf(FirstLine(text), version).WordLine?)
    ensures Tidied(text, inside, version) == FirstLine(text) + "\n" + Tidied(AfterLine(text), r, version)
  {
    r := inside || KindOf(FirstLine(text), version).WordLine?;
  }

  lemma {:induction false} WordsCounted(st: State, line: string, version: nat)
    requires |st.words| >= 1 && line != "" && line[0] != '#' && ParseLine(st, line, version).Next?
    ensures var next := ParseLine(st, line, version).state;
            |next.words| >= 1 && (!NoWords(next) <==> !NoWords(st) || KindOf(line, version).WordLine?)
  {
  }

  /** Of any text from which a sentence is read, exactly these are the written form of the sentence: the text up to the
      rest without carriage returns, leading empty lines and late comments, if that is canonical. */
  lemma {:induction false} AcceptedTidied(text: string, version: nat)
    ensures SentenceAt(Tidied(text, false, version), version) == SentenceAt(text, version)
    ensures SentenceAt(text, version).Sentence? && Canonical(Tidied(text, false, version), Front, version) ==>
              var r := SentenceAt(text, version);
              Printable(r.tree) && Tidied(text, false, version) == Write(r.tree, version) + r.rest
  {
    TidiedReads(text, START, version);
    var tidy := Tidied(text, false, version);
    if SentenceAt(tidy, version).Sentence? && Canonical(tidy, Front, version) { AcceptedIsWritten(tidy, version); }
  }
}
