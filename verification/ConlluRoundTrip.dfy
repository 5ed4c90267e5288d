/** Reading back in CoNLL-U what was written. */
module ConlluRoundTrip {
  import opened Sentences
  import opened Sequences
  import opened Strings
  import opened ConlluReader
  import opened ConlluWriter

  // ---------- the sentences the format can carry ----------

  predicate Cell(s: string) { s != "" && '\t' !in s && '\r' !in s && '\n' !in s }

  predicate Tight(s: string) { Cell(s) && ' ' !in s }

  predicate Loose(s: string, version: nat) { Cell(s) && (version >= 2 || ' ' !in s) }

  predicate Optional(s: string) { s == "" || (Tight(s) && s != "_") }

  predicate OptionalLoose(s: string, version: nat) { s == "" || (Loose(s, version) && s != "_") }

  predicate WordOk(w: Word, k: nat, version: nat) {
    && w.id == k <= INT_MAX && w.head >= -1
    && Loose(w.form, version) && Loose(w.lem, version)
    && Optional(w.upostag) && Optional(w.xpostag) && Optional(w.feats)
    && Optional(w.deprel) && Optional(w.deps) && OptionalLoose(w.misc, version)
  }

  predicate MultiwordOk(m: MultiwordToken, version: nat) {
    && Loose(m.form, version) && OptionalLoose(m.misc, version)
    && (m.feats == "" || (version >= 2 && m.feats == "Typo=Yes"))
  }

  predicate EmptyNodeOk(e: EmptyNode, version: nat) {
    && version >= 2 && 0 <= e.id && 1 <= e.index <= INT_MAX
    && Cell(e.form) && Cell(e.lem)
    && Optional(e.upostag) && Optional(e.xpostag) && Optional(e.feats) && Optional(e.deps)
    && OptionalLoose(e.misc, version)
  }

  predicate CommentOk(c: string) { c != "" && c[0] == '#' && '\r' !in c && '\n' !in c }

  /** Empty nodes are numbered in order: from 1 after each word, without holes. */
  predicate NumberedInOrder(empties: seq<EmptyNode>) {
    empties == [] ||
    var n := |empties| - 1;
    NumberedInOrder(empties[..n]) && NextEmptyNode(empties[..n], empties[n].id, empties[n].index)
  }

  /** Everything a sentence must satisfy to be carried: dense ids, heads inside, children indexing heads, ordered
      disjoint multiword ranges inside the words, empty nodes in order, columns without separators. */
  ghost predicate WellFormed(t: Tree, version: nat) {
    && |t.words| >= 2 && t.words[0] == ROOT.(children := t.words[0].children)
    && (forall k {:trigger t.words[k]} | 1 <= k < |t.words| ::
          WordOk(t.words[k], k, version) && t.words[k].head < |t.words|)
    && ChildrenIndexHeads(t.words)
    && OrderedRanges(|t.words|, t.mwts) && (forall m | m in t.mwts :: MultiwordOk(m, version))
    && NumberedInOrder(t.empties) && (forall e | e in t.empties :: EmptyNodeOk(e, version) && e.id < |t.words|)
    && (forall c | c in t.comments :: CommentOk(c))
  }

  // ---------- one line ----------

  predicate NoBreaks(s: string) { '\r' !in s && '\n' !in s }

  lemma {:induction false} ReadOne(line: string, rest: string)
    requires NoBreaks(line)
    ensures FirstLine(line + "\n" + rest) == line && AfterLine(line + "\n" + rest) == rest
  {
    LineLengthAt(line, rest);
    var text := line + "\n" + rest;
    assert text[..|line|] == line && text[|line|..] == "\n" + rest;
  }

  lemma {:induction false} LineLengthAt(line: string, rest: string)
    requires NoBreaks(line)
    ensures LineLength(line + "\n" + rest) == |line|
    decreases |line|
  {
    if line == "" {
      assert line + "\n" + rest == "\n" + rest;
    } else {
      assert line[0] in line && (line + "\n" + rest)[1..] == line[1..] + "\n" + rest;
      LineLengthAt(line[1..], rest);
    }
  }

  function Continue(r: LineResult, rest: string, version: nat): Reading {
    match r
    case Next(state) => Read(rest, state, version)
    case Fail(e) => Failed(e)
  }

  /** A line that is no comment goes through ParseLine. */
  lemma {:induction false} ReadStep(line: string, rest: string, st: State, version: nat)
    requires NoBreaks(line) && line != "" && line[0] != '#'
    ensures Read(line + "\n" + rest, st, version) ==
            Continue(ParseLine(st, line, version), rest, version)
  {
    ReadOne(line, rest);
    assert (line + "\n" + rest)[0] == line[0];
  }

  // ---------- columns ----------

  ghost predicate ColumnsOk(cols: seq<string>, version: nat) {
    && |cols| == 10
    && forall i | 0 <= i < 10 :: Cell(cols[i]) && (MayHoldSpaces(version, i) || ' ' !in cols[i])
  }

  lemma {:induction false} NoColumnError(cols: seq<string>, version: nat, i: nat)
    requires ColumnsOk(cols, version)
    ensures ColumnError(cols, version, i) == None
    decreases 10 - i
  {
    if i < 10 { NoColumnError(cols, version, i + 1); }
  }

  lemma {:induction false} JoinKeeps(cols: seq<string>, sep: char, c: char)
    requires c != sep && forall i | 0 <= i < |cols| :: c !in cols[i]
    ensures c !in Join(cols, sep)
    decreases |cols|
  {
    if |cols| > 1 { JoinKeeps(cols[1..], sep, c); }
  }

  /** A line of fit columns is read as these columns. */
  lemma {:induction false} LineColumns(cols: seq<string>, version: nat)
    requires ColumnsOk(cols, version)
    ensures var line := Join(cols, '\t');
            && NoBreaks(line) && line != "" && line[0] == cols[0][0]
            && Split(line, '\t') == cols && ColumnError(cols, version, 0) == None
  {
    JoinKeeps(cols, '\t', '\r');
    JoinKeeps(cols, '\t', '\n');
    SplitJoin(cols, '\t');
    NoColumnError(cols, version, 0);
  }

  /** A written line of fit columns goes through ParseLine. */
  lemma {:induction false} LineStep(cols: seq<string>, rest: string, st: State, version: nat)
    requires ColumnsOk(cols, version) && cols[0][0] != '#'
    ensures Read(Line(cols) + rest, st, version) == Continue(ParseLine(st, Join(cols, '\t'), version), rest, version)
  {
    LineColumns(cols, version);
    ReadStep(Join(cols, '\t'), rest, st, version);
  }

  lemma {:induction false} DecimalPlain(n: nat)
    ensures var d := ToDecimal(n); Tight(d) && '-' !in d && '.' !in d && d[0] != '#' && d != "_"
  {
    var d := ToDecimal(n);
    assert d[0] in d;
    assert forall c | c in d :: IsDigit(c);
  }

  lemma {:induction false} TwoNumbers(a: nat, b: nat, sep: char)
    requires sep == '-' || sep == '.'
    ensures var s := ToDecimal(a) + [sep] + ToDecimal(b);
            && Split(s, sep) == [ToDecimal(a), ToDecimal(b)]
            && sep in s && (sep == '.' ==> '-' !in s) && Tight(s) && s[0] != '#'
  {
    DecimalPlain(a);
    DecimalPlain(b);
    var fields := [ToDecimal(a), ToDecimal(b)];
    assert Join(fields[1..], sep) == ToDecimal(b);
    SplitJoin(fields, sep);
    assert (ToDecimal(a) + [sep] + ToDecimal(b))[|ToDecimal(a)|] == sep;
  }

  function Unlink(w: Word): Word { w.(children := []) }

  lemma {:induction false} WordColumnsFit(w: Word, k: nat, version: nat)
    requires WordOk(w, k, version)
    ensures ColumnsOk(WordColumns(w, k, version), version)
  {
    DecimalPlain(k);
    if w.head >= 0 { DecimalPlain(w.head); }
    assert Tight("_");
  }

  lemma {:induction false} WordColumnsParse(st: State, w: Word, k: nat, version: nat)
    requires WordOk(w, k, version) && w.head <= INT_MAX && |st.words| == k
    ensures ParseWord(st, WordColumns(w, k, version)) == Next(st.(words := st.words + [Unlink(w)]))
  {
    ParseDecimal(k);
    if w.head >= 0 { DecimalPlain(w.head); ParseDecimal(w.head); }
  }

  lemma {:induction false} WordLineParses(st: State, w: Word, k: nat, version: nat)
    requires WordOk(w, k, version) && w.head <= INT_MAX && |st.words| == k
    ensures ParseLine(st, Join(WordColumns(w, k, version), '\t'), version) ==
            Next(st.(words := st.words + [Unlink(w)]))
  {
    var cols := WordColumns(w, k, version);
    WordColumnsFit(w, k, version);
    LineColumns(cols, version);
    DecimalPlain(k);
    WordColumnsParse(st, w, k, version);
  }

  lemma {:induction false} MultiwordColumnsFit(m: MultiwordToken, version: nat)
    requires MultiwordOk(m, version) && 0 <= m.idFirst && 0 <= m.idLast
    ensures ColumnsOk(MultiwordColumns(m, version), version)
  {
    TwoNumbers(m.idFirst, m.idLast, '-');
    var range := ToDecimal(m.idFirst) + "-" + ToDecimal(m.idLast);
    assert range == ToDecimal(m.idFirst) + ['-'] + ToDecimal(m.idLast);
    MultiwordCells(m, range, version);
  }

  lemma {:induction false} MultiwordCells(m: MultiwordToken, range: string, version: nat)
    requires MultiwordOk(m, version) && Tight(range)
    ensures ColumnsOk([range, Spaced(version, m.form), "_", "_", "_", Underscore(m.feats), "_", "_", "_",
                       Underscore(m.misc)], version)
  {
    assert Tight("_") && Tight("Typo=Yes");
  }

  lemma {:induction false} MultiwordFilled(m: MultiwordToken, version: nat)
    requires MultiwordOk(m, version) && 0 <= m.idFirst && 0 <= m.idLast
    ensures MultiwordColumnError(MultiwordColumns(m, version), version, 2) == None
  {
    var cols := MultiwordColumns(m, version);
    assert MultiwordColumnError(cols, version, 9) == None;
    assert MultiwordColumnError(cols, version, 7) == None;
    assert MultiwordColumnError(cols, version, 5) == None;
    assert MultiwordColumnError(cols, version, 3) == None;
  }

  lemma {:induction false} MultiwordLineParses(st: State, m: MultiwordToken, version: nat)
    requires MultiwordOk(m, version) && m.idFirst == |st.words| && st.last < m.idFirst <= m.idLast <= INT_MAX
    ensures ParseLine(st, Join(MultiwordColumns(m, version), '\t'), version) ==
            Next(st.(mwts := st.mwts + [m], last := m.idLast))
  {
    var cols := MultiwordColumns(m, version);
    MultiwordColumnsFit(m, version);
    LineColumns(cols, version);
    TwoNumbers(m.idFirst, m.idLast, '-');
    ParseDecimal(m.idFirst);
    ParseDecimal(m.idLast);
    MultiwordFilled(m, version);
    assert cols[0] == ToDecimal(m.idFirst) + ['-'] + ToDecimal(m.idLast);
    assert ParseMultiword(st, cols, version) == Next(st.(mwts := st.mwts + [m], last := m.idLast));
  }

  lemma {:induction false} EmptyNodeColumnsFit(e: EmptyNode, version: nat)
    requires EmptyNodeOk(e, version)
    ensures ColumnsOk(EmptyNodeColumns(e, e.id), version)
  {
    TwoNumbers(e.id, e.index, '.');
    assert EmptyNodeColumns(e, e.id)[0] == ToDecimal(e.id) + ['.'] + ToDecimal(e.index);
    assert Tight("_");
  }

  lemma {:induction false} EmptyNodeLineParses(st: State, e: EmptyNode, version: nat)
    requires EmptyNodeOk(e, version) && e.id == |st.words| - 1 <= INT_MAX && NextEmptyNode(st.empties, e.id, e.index)
    ensures ParseLine(st, Join(EmptyNodeColumns(e, e.id), '\t'), version) == Next(st.(empties := st.empties + [e]))
  {
    var cols := EmptyNodeColumns(e, e.id);
    EmptyNodeColumnsFit(e, version);
    LineColumns(cols, version);
    TwoNumbers(e.id, e.index, '.');
    assert cols[0] == ToDecimal(e.id) + ['.'] + ToDecimal(e.index);
    EmptyNodeParses(st, e, version);
  }

  lemma {:induction false} EmptyNodeParses(st: State, e: EmptyNode, version: nat)
    requires EmptyNodeOk(e, version) && e.id == |st.words| - 1 <= INT_MAX && NextEmptyNode(st.empties, e.id, e.index)
    ensures ParseEmptyNode(st, EmptyNodeColumns(e, e.id)) == Next(st.(empties := st.empties + [e]))
  {
    var cols := EmptyNodeColumns(e, e.id);
    TwoNumbers(e.id, e.index, '.');
    assert cols[0] == ToDecimal(e.id) + ['.'] + ToDecimal(e.index);
    ParseDecimal(e.id);
    ParseDecimal(e.index);
    BlankUnderscore(e.upostag);
    BlankUnderscore(e.xpostag);
    BlankUnderscore(e.feats);
    BlankUnderscore(e.deps);
    BlankUnderscore(e.misc);
  }

  lemma {:induction false} BlankUnderscore(s: string)
    requires s != "_"
    ensures Blank(Underscore(s)) == s
  {
  }

  // ---------- the whole sentence ----------

  /** The state after the words below i, the first j multiword tokens and e empty nodes. */
  function WordsBelow(words: seq<Word>, i: nat): (r: seq<Word>)
    requires i <= |words|
    ensures |r| == if i <= 1 then 1 else i
  {
    if i <= 1 then [ROOT] else WordsBelow(words, i - 1) + [Unlink(words[i - 1])]
  }

  function StateAt(t: Tree, i: nat, j: nat, e: nat): State
    requires i <= |t.words| && j <= |t.mwts| && e <= |t.empties|
  {
    State(WordsBelow(t.words, i), t.mwts[..j], t.empties[..e], t.comments, if j == 0 then 0 else t.mwts[j - 1].idLast)
  }

  /** The next multiword token and the next empty node are not behind word i. */
  ghost predicate Ahead(t: Tree, i: nat, j: nat, e: nat) {
    && i <= |t.words| && j <= |t.mwts| && e <= |t.empties|
    && (j < |t.mwts| ==> t.mwts[j].idFirst >= i)
    && (e < |t.empties| ==> t.empties[e].id >= i)
  }

  lemma {:induction false} InOrderAt(empties: seq<EmptyNode>, e: nat)
    requires NumberedInOrder(empties) && e < |empties|
    ensures NextEmptyNode(empties[..e], empties[e].id, empties[e].index)
    ensures e > 0 ==> empties[e - 1].id <= empties[e].id
    decreases |empties|
  {
    var n := |empties| - 1;
    if e < n {
      InOrderAt(empties[..n], e);
      assert empties[..n][..e] == empties[..e];
    }
  }

  lemma {:induction false} WellFormedPrints(t: Tree, version: nat)
    requires WellFormed(t, version)
    ensures Printable(t) && |t.words| - 1 <= INT_MAX
  {
    assert WordOk(t.words[|t.words| - 1], |t.words| - 1, version);
    forall m | m in t.mwts ensures 0 <= m.idFirst && 0 <= m.idLast {
      var k :| 0 <= k < |t.mwts| && t.mwts[k] == m;
    }
    assert forall e | e in t.empties :: EmptyNodeOk(e, version);
  }

  lemma {:induction false} TwoParts(a: string, b: string, rest: string)
    ensures (a + "\n" + b) + rest == a + "\n" + (b + rest)
  {
  }

  lemma {:induction false} MultiwordStep(t: Tree, version: nat, i: nat, j: nat, e: nat, rest: string)
    requires WellFormed(t, version) && Printable(t) && Ahead(t, i, j, e) && StartsAt(t, i, j) && i < |t.words|
    ensures t.mwts[j] in t.mwts
    ensures Read(Line(MultiwordColumns(t.mwts[j], version)) + rest, StateAt(t, i, j, e), version) ==
            Read(rest, StateAt(t, i, j + 1, e), version)
  {
    var m, st := t.mwts[j], StateAt(t, i, j, e);
    assert m in t.mwts && MultiwordOk(m, version);
    MultiwordAt(t, version, i, j, e);
    MultiwordColumnsFit(m, version);
    TwoNumbers(m.idFirst, m.idLast, '-');
    LineStep(MultiwordColumns(m, version), rest, st, version);
    MultiwordLineParses(st, m, version);
  }

  lemma {:induction false} MultiwordAt(t: Tree, version: nat, i: nat, j: nat, e: nat)
    requires WellFormed(t, version) && Ahead(t, i, j, e) && StartsAt(t, i, j) && i < |t.words|
    ensures var m, st := t.mwts[j], StateAt(t, i, j, e);
            && m.idFirst == |st.words| && st.last < m.idFirst <= m.idLast <= INT_MAX
            && StateAt(t, i, j + 1, e) == st.(mwts := st.mwts + [m], last := m.idLast)
  {
    WellFormedPrints(t, version);
    assert t.mwts[..j + 1] == t.mwts[..j] + [t.mwts[j]];
  }

  lemma {:induction false} WordStep(t: Tree, version: nat, i: nat, j: nat, e: nat, rest: string)
    requires WellFormed(t, version) && 1 <= i < |t.words| && j <= |t.mwts| && e <= |t.empties|
    ensures Read(Line(WordColumns(t.words[i], i, version)) + rest, StateAt(t, i, j, e), version) ==
            Read(rest, StateAt(t, i + 1, j, e), version)
  {
    var w, st := t.words[i], StateAt(t, i, j, e);
    WellFormedPrints(t, version);
    assert WordOk(w, i, version) && w.head < |t.words|;
    WordColumnsFit(w, i, version);
    DecimalPlain(i);
    LineStep(WordColumns(w, i, version), rest, st, version);
    WordLineParses(st, w, i, version);
  }

  lemma {:induction false} EmptyNodeStep(t: Tree, version: nat, i: nat, j: nat, e: nat, rest: string)
    requires WellFormed(t, version) && Printable(t) && i < |t.words| && j <= |t.mwts| && e < |t.empties| &&
             t.empties[e].id == i
    ensures t.empties[e] in t.empties
    ensures Read(Line(EmptyNodeColumns(t.empties[e], i)) + rest, StateAt(t, i + 1, j, e), version) ==
            Read(rest, StateAt(t, i + 1, j, e + 1), version)
  {
    var x, st := t.empties[e], StateAt(t, i + 1, j, e);
    assert x in t.empties && EmptyNodeOk(x, version);
    EmptyNodeAt(t, version, i, j, e);
    EmptyNodeColumnsFit(x, version);
    TwoNumbers(x.id, x.index, '.');
    assert EmptyNodeColumns(x, i)[0] == ToDecimal(x.id) + ['.'] + ToDecimal(x.index);
    LineStep(EmptyNodeColumns(x, i), rest, st, version);
    EmptyNodeLineParses(st, x, version);
  }

  lemma {:induction false} EmptyNodeAt(t: Tree, version: nat, i: nat, j: nat, e: nat)
    requires WellFormed(t, version) && i < |t.words| && j <= |t.mwts| && e < |t.empties| && t.empties[e].id == i
    ensures var x, st := t.empties[e], StateAt(t, i + 1, j, e);
            && x.id == |st.words| - 1 <= INT_MAX && NextEmptyNode(st.empties, x.id, x.index)
            && StateAt(t, i + 1, j, e + 1) == st.(empties := st.empties + [x])
  {
    WellFormedPrints(t, version);
    InOrderAt(t.empties, e);
    assert t.empties[..e + 1] == t.empties[..e] + [t.empties[e]];
  }

  lemma {:induction false} WordsRead(t: Tree, version: nat, i: nat, j: nat, e: nat, rest: string)
    requires WellFormed(t, version) && Printable(t) && Ahead(t, i, j, e)
    ensures Read(WordsFrom(t, version, i, j, e) + rest, StateAt(t, i, j, e), version) ==
            Finished(StateAt(t, |t.words|, |t.mwts|, |t.empties|), rest)
    decreases |t.words| - i, 1, 0
  {
    if i == |t.words| {
      NothingAhead(t, version, j, e);
      ReadOne("", rest);
      assert "" + "\n" + rest == "\n" + rest;
    } else {
      var j' := if StartsAt(t, i, j) then j + 1 else j;
      var tail := EmptiesFrom(t, version, i, j', e) + rest;
      WordPartRead(t, version, i, j, e, tail);
      Assoc(WordPart(t, version, i, j), EmptiesFrom(t, version, i, j', e), rest);
      EmptiesRead(t, version, i, j', e, rest);
    }
  }

  lemma {:induction false} NothingAhead(t: Tree, version: nat, j: nat, e: nat)
    requires WellFormed(t, version) && Ahead(t, |t.words|, j, e)
    ensures j == |t.mwts| && e == |t.empties|
  {
    assert forall k | 0 <= k < |t.empties| :: t.empties[k] in t.empties && t.empties[k].id < |t.words|;
  }

  lemma {:induction false} WordPartRead(t: Tree, version: nat, i: nat, j: nat, e: nat, tail: string)
    requires WellFormed(t, version) && Printable(t) && Ahead(t, i, j, e) && i < |t.words|
    ensures var j' := if StartsAt(t, i, j) then j + 1 else j;
            && Ahead(t, i, j', e) && (j' < |t.mwts| ==> t.mwts[j'].idFirst > i)
            && Read(WordPart(t, version, i, j) + tail, StateAt(t, i, j, e), version) ==
               Read(tail, StateAt(t, i + 1, j', e), version)
  {
    var j' := if StartsAt(t, i, j) then j + 1 else j;
    var second := if i > 0 then Line(WordColumns(t.words[i], i, version)) else "";
    if StartsAt(t, i, j) {
      assert t.mwts[j] in t.mwts;
      Assoc(Line(MultiwordColumns(t.mwts[j], version)), second, tail);
      MultiwordStep(t, version, i, j, e, second + tail);
    } else {
      assert "" + second == second;
    }
    if i > 0 { WordStep(t, version, i, j', e, tail); } else { assert second + tail == tail; }
  }

  /** What is ahead after an empty node of word i, or once there is none. */
  lemma {:induction false} AheadNext(t: Tree, version: nat, i: nat, j: nat, e: nat)
    requires WellFormed(t, version) && Ahead(t, i, j, e) && i < |t.words|
    requires j < |t.mwts| ==> t.mwts[j].idFirst > i
    ensures e < |t.empties| ==> version >= 2 && t.empties[e] in t.empties
    ensures if e < |t.empties| && t.empties[e].id == i then Ahead(t, i, j, e + 1) else Ahead(t, i + 1, j, e)
  {
    if e < |t.empties| { assert t.empties[e] in t.empties && EmptyNodeOk(t.empties[e], version); }
    if e + 1 < |t.empties| { InOrderAt(t.empties, e + 1); }
  }

  lemma {:induction false} FirstEmptyNode(t: Tree, version: nat, i: nat, j: nat, e: nat, rest: string)
    requires Printable(t) && i < |t.words| && version >= 2 && e < |t.empties| && t.empties[e].id == i &&
             t.empties[e] in t.empties
    ensures EmptiesFrom(t, version, i, j, e) + rest ==
            Line(EmptyNodeColumns(t.empties[e], i)) + (EmptiesFrom(t, version, i, j, e + 1) + rest)
  {
    Assoc(Line(EmptyNodeColumns(t.empties[e], i)), EmptiesFrom(t, version, i, j, e + 1), rest);
  }

  lemma {:induction false} FirstEmptyNodeRead(t: Tree, version: nat, i: nat, j: nat, e: nat, rest: string)
    requires WellFormed(t, version) && Printable(t) && i < |t.words| && j <= |t.mwts|
    requires version >= 2 && e < |t.empties| && t.empties[e].id == i
    ensures Read(EmptiesFrom(t, version, i, j, e) + rest, StateAt(t, i + 1, j, e), version) ==
            Read(EmptiesFrom(t, version, i, j, e + 1) + rest, StateAt(t, i + 1, j, e + 1), version)
  {
    EmptyNodeStep(t, version, i, j, e, EmptiesFrom(t, version, i, j, e + 1) + rest);
    FirstEmptyNode(t, version, i, j, e, rest);
  }

  lemma {:induction false} EmptiesRead(t: Tree, version: nat, i: nat, j: nat, e: nat, rest: string)
    requires WellFormed(t, version) && Printable(t) && Ahead(t, i, j, e) && i < |t.words|
    requires j < |t.mwts| ==> t.mwts[j].idFirst > i
    ensures Read(EmptiesFrom(t, version, i, j, e) + rest, StateAt(t, i + 1, j, e), version) ==
            Finished(StateAt(t, |t.words|, |t.mwts|, |t.empties|), rest)
    decreases |t.words| - i, 0, |t.empties| - e
  {
    AheadNext(t, version, i, j, e);
    if version >= 2 && e < |t.empties| && t.empties[e].id == i {
      FirstEmptyNodeRead(t, version, i, j, e, rest);
      EmptiesRead(t, version, i, j, e + 1, rest);
    } else {
      WordsRead(t, version, i + 1, j, e, rest);
    }
  }

  lemma {:induction false} CommentsRead(comments: seq<string>, rest: string, st: State, version: nat)
    requires NoWords(st) && forall c | c in comments :: CommentOk(c)
    ensures Read(CommentLines(comments) + rest, st, version) ==
            Read(rest, st.(comments := st.comments + comments), version)
    decreases |comments|
  {
    if comments == [] {
      assert "" + rest == rest && st.comments + [] == st.comments;
    } else {
      var c, tail := comments[0], CommentLines(comments[1..]) + rest;
      var st' := st.(comments := st.comments + [c]);
      TwoParts(c, CommentLines(comments[1..]), rest);
      CommentRead(c, tail, st, version);
      assert forall x | x in comments[1..] :: x in comments;
      CommentsRead(comments[1..], rest, st', version);
      ConcatFront(st.comments, comments);
    }
  }

  lemma {:induction false} ConcatFront(a: seq<string>, b: seq<string>)
    requires b != []
    ensures (a + [b[0]]) + b[1..] == a + b
  {
  }

  lemma {:induction false} CommentRead(c: string, rest: string, st: State, version: nat)
    requires NoWords(st) && CommentOk(c)
    ensures Read(c + "\n" + rest, st, version) == Read(rest, st.(comments := st.comments + [c]), version)
  {
    ReadOne(c, rest);
    assert (c + "\n" + rest)[0] == '#';
  }

  lemma {:induction false} BelowAt(words: seq<Word>, n: nat, k: nat)
    requires 1 <= n <= |words| && k < n
    ensures WordsBelow(words, n)[k] == if k == 0 then ROOT else Unlink(words[k])
    decreases n
  {
    if n > 1 && k < n - 1 { BelowAt(words, n - 1, k); }
  }

  lemma {:induction false} AllUnlinked(t: Tree, version: nat)
    requires WellFormed(t, version)
    ensures var n, ws := |t.words|, WordsBelow(t.words, |t.words|);
            |ws| == n && forall k {:trigger ws[k]} | 0 <= k < n :: ws[k] == Unlink(t.words[k]) && ws[k].head < n
  {
    var n := |t.words|;
    var ws := WordsBelow(t.words, n);
    forall k {:trigger ws[k]} | 0 <= k < n ensures ws[k] == Unlink(t.words[k]) && ws[k].head < n {
      BelowAt(t.words, n, k);
      if k > 0 { assert WordOk(t.words[k], k, version); }
    }
  }

  /** The reader relinks exactly the children of the written sentence. */
  lemma {:induction false} Relinked(t: Tree, version: nat)
    requires WellFormed(t, version)
    ensures WithChildren(WordsBelow(t.words, |t.words|)) == t.words
    ensures HeadError(WordsBelow(t.words, |t.words|), 1) == None
  {
    var n := |t.words|;
    var ws := WordsBelow(t.words, n);
    AllUnlinked(t, version);
    forall k | 0 <= k < n ensures WithChildren(ws)[k] == t.words[k] {
      assert ws[k] == Unlink(t.words[k]);
      AscendingUnique(ChildrenOf(ws, k, n), t.words[k].children);
    }
  }

  lemma {:induction false} StartsAhead(t: Tree, version: nat)
    requires WellFormed(t, version)
    ensures START.(comments := START.comments + t.comments) == StateAt(t, 0, 0, 0) && Ahead(t, 0, 0, 0)
  {
    if t.empties != [] { assert t.empties[0] in t.empties && EmptyNodeOk(t.empties[0], version); }
  }

  /** Reading what was written yields the unlinked words and all the rest of the sentence. */
  lemma {:induction false} WrittenRead(t: Tree, version: nat, rest: string)
    requires WellFormed(t, version)
    ensures Printable(t)
    ensures Read(Write(t, version) + rest, START, version) ==
            Finished(StateAt(t, |t.words|, |t.mwts|, |t.empties|), rest)
  {
    WellFormedPrints(t, version);
    Assoc(CommentLines(t.comments), WordsFrom(t, version, 0, 0, 0), rest);
    CommentsRead(t.comments, WordsFrom(t, version, 0, 0, 0) + rest, START, version);
    StartsAhead(t, version);
    WordsRead(t, version, 0, 0, 0, rest);
  }

  /** The round trip: a well-formed sentence, written and followed by any text, is read back as itself,
      with exactly that text left. */
  lemma {:induction false} RoundTrip(t: Tree, version: nat, rest: string)
    requires WellFormed(t, version)
    ensures Printable(t)
    ensures SentenceAt(Write(t, version) + rest, version) == Outcome.Sentence(t, rest)
  {
    WrittenRead(t, version, rest);
    Relinked(t, version);
    assert t.mwts[..|t.mwts|] == t.mwts && t.empties[..|t.empties|] == t.empties;
  }
}
