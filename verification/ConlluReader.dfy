/** The CoNLL-U reader, src/sentence/input_format.cpp:63-204: line by line a comment, a word, a multiword token or an
    empty node is added to the sentence, and the heads are linked at its end. */
module ConlluReader {
  import opened Sentences
  import opened Strings

  datatype Error =
    | WrongColumnCount | EmptyColumn(i: nat) | SpacesInColumn(i: nat) | BadNumber
    | BadMultiwordId | WrongMultiwordStart | WrongMultiwordRange | OverlappingMultiword | FilledMultiwordColumn(i: nat)
    | BadEmptyNodeId | WrongEmptyNodeId | WrongEmptyNodeIndex | FilledEmptyNodeColumn(i: nat)
    | WrongWordId | NegativeHead | MissingWords | HeadTooLarge(id: nat)

  /** The sentence being read, and the last word id a multiword token has claimed. */
  datatype State = State(
    words: seq<Word>, mwts: seq<MultiwordToken>, empties: seq<EmptyNode>, comments: seq<string>, last: int)

  const START := State([ROOT], [], [], [], 0)

  datatype Tree = Tree(words: seq<Word>, mwts: seq<MultiwordToken>, empties: seq<EmptyNode>, comments: seq<string>)

  // ---------- one line ----------

  predicate AtBreak(c: char) { c == '\r' || c == '\n' }

  function LineLength(text: string): (n: nat)
    ensures n <= |text|
    ensures n < |text| ==> AtBreak(text[n])
  {
    if text == "" || AtBreak(text[0]) then 0 else LineLength(text[1..]) + 1
  }

  lemma {:induction false} LineUnbroken(text: string)
    ensures forall k | 0 <= k < LineLength(text) :: !AtBreak(text[k])
    decreases |text|
  {
    if text != "" && !AtBreak(text[0]) {
      LineUnbroken(text[1..]);
      assert forall k | 0 < k < LineLength(text) :: text[k] == text[1..][k - 1];
    }
  }

  /** What is left after a line break at the front; a lone carriage return is not taken. */
  function SkipBreak(text: string): (r: string)
    ensures |r| <= |text|
  {
    if |text| >= 2 && text[0] == '\r' && text[1] == '\n' then text[2..]
    else if text != "" && text[0] == '\n' then text[1..]
    else text
  }

  function FirstLine(text: string): string { text[..LineLength(text)] }

  function AfterLine(text: string): (r: string)
    ensures |r| <= |text| - |FirstLine(text)|
  {
    SkipBreak(text[LineLength(text)..])
  }

  datatype LineResult = Next(state: State) | Fail(error: Error)

  predicate MayHoldSpaces(version: nat, i: nat) { version >= 2 && (i == 1 || i == 2 || i == 9) }

  /** The first column from i on that is empty or has a space it must not have. */
  function ColumnError(cols: seq<string>, version: nat, i: nat): Option<Error>
    requires |cols| == 10
    decreases 10 - i
  {
    if i >= 10 then None
    else if cols[i] == "" then Some(EmptyColumn(i))
    else if !MayHoldSpaces(version, i) && ' ' in cols[i] then Some(SpacesInColumn(i))
    else ColumnError(cols, version, i + 1)
  }

  function Blank(s: string): string { if s == "_" then "" else s }

  /** The first column from i on that a multiword token must leave empty and does not. */
  function MultiwordColumnError(cols: seq<string>, version: nat, i: nat): Option<Error>
    requires |cols| == 10
    decreases 10 - i
  {
    if i >= 9 then None
    else if cols[i] != "_" && !(version >= 2 && i == 5 && cols[i] == "Typo=Yes") then Some(FilledMultiwordColumn(i))
    else MultiwordColumnError(cols, version, i + 1)
  }

  function ParseMultiword(st: State, cols: seq<string>, version: nat): LineResult
    requires |cols| == 10
  {
    var parts := Split(cols[0], '-');
    if |parts| != 2 then Fail(BadMultiwordId)
    else match (ParseInt(parts[0]), ParseInt(parts[1]))
      case (Some(from), Some(to)) =>
        if from != |st.words| then Fail(WrongMultiwordStart)
        else if to < from then Fail(WrongMultiwordRange)
        else if from <= st.last then Fail(OverlappingMultiword)
        else (match MultiwordColumnError(cols, version, 2)
          case Some(e) => Fail(e)
          case None =>
            Next(st.(mwts := st.mwts + [MultiwordToken(from, to, cols[1], Blank(cols[5]), Blank(cols[9]))],
                     last := to)))
      case _ => Fail(BadNumber)
  }

  /** The empty-node numbering rule: indices count from 1 after each word. */
  predicate NextEmptyNode(empties: seq<EmptyNode>, id: int, index: int) {
    if empties == [] then index == 1
    else
      var back := empties[|empties| - 1];
      (back.id < id && index == 1) || (back.id == id && index == back.index + 1)
  }

  function ParseEmptyNode(st: State, cols: seq<string>): LineResult
    requires |cols| == 10
  {
    var parts := Split(cols[0], '.');
    if |parts| != 2 then Fail(BadEmptyNodeId)
    else match (ParseInt(parts[0]), ParseInt(parts[1]))
      case (Some(id), Some(index)) =>
        if id != |st.words| - 1 then Fail(WrongEmptyNodeId)
        else if !NextEmptyNode(st.empties, id, index) then Fail(WrongEmptyNodeIndex)
        else if cols[6] != "_" then Fail(FilledEmptyNodeColumn(6))
        else if cols[7] != "_" then Fail(FilledEmptyNodeColumn(7))
        else
          Next(st.(empties := st.empties + [
            EmptyNode(id, index, cols[1], cols[2], Blank(cols[3]), Blank(cols[4]), Blank(cols[5]), Blank(cols[8]),
                      Blank(cols[9]))]))
      case _ => Fail(BadNumber)
  }

  function ParseWord(st: State, cols: seq<string>): LineResult
    requires |cols| == 10
  {
    match ParseInt(cols[0])
    case None => Fail(BadNumber)
    case Some(id) =>
      if id != |st.words| then Fail(WrongWordId)
      else
        var head := if cols[6] == "_" then Some(-1) else ParseInt(cols[6]);
        if head.None? then Fail(BadNumber)
        else if cols[6] != "_" && head.value < 0 then Fail(NegativeHead)
        else
          Next(st.(words := st.words + [
            Word(id, cols[1], cols[2], Blank(cols[3]), Blank(cols[4]), Blank(cols[5]), head.value,
                 Blank(cols[7]), Blank(cols[8]), Blank(cols[9]), [])]))
  }

  function ParseLine(st: State, line: string, version: nat): LineResult {
    var cols := Split(line, '\t');
    if |cols| != 10 then Fail(WrongColumnCount)
    else match ColumnError(cols, version, 0)
      case Some(e) => Fail(e)
      case None =>
        if '-' in cols[0] then ParseMultiword(st, cols, version)
        else if version >= 2 && '.' in cols[0] then ParseEmptyNode(st, cols)
        else ParseWord(st, cols)
  }

  // ---------- the reading loop ----------

  datatype Reading = Stuck | Failed(error: Error) | Finished(state: State, rest: string)

  predicate NoWords(st: State) { |st.words| == 1 }

  function Read(text: string, st: State, version: nat): Reading
    decreases |text|
  {
    if text == "" then Finished(st, "")
    else
      var line, rest := FirstLine(text), AfterLine(text);
      if line == "" then
        if !NoWords(st) then Finished(st, rest)
        else if |rest| < |text| then Read(rest, st, version)
        else Stuck
      else if line[0] == '#' then
        Read(rest, if NoWords(st) then st.(comments := st.comments + [line]) else st, version)
      else
        match ParseLine(st, line, version)
        case Fail(e) => Failed(e)
        case Next(st') => Read(rest, st', version)
  }

  /** The first word from id on whose head is too large. */
  function HeadError(words: seq<Word>, id: nat): (r: Option<Error>)
    ensures r == None <==> forall k | id <= k < |words| :: words[k].head < |words|
    decreases |words| - id
  {
    if id >= |words| then None
    else if words[id].head >= |words| then Some(HeadTooLarge(id))
    else HeadError(words, id + 1)
  }

  function FinishError(st: State): Option<Error> {
    if st.last >= |st.words| then Some(MissingWords) else HeadError(st.words, 1)
  }

  function WithChildren(words: seq<Word>): (r: seq<Word>)
    ensures |r| == |words|
    ensures forall k | 0 <= k < |words| :: r[k] == words[k].(children := ChildrenOf(words, k, |words|))
  {
    seq(|words|, k requires 0 <= k < |words| => words[k].(children := ChildrenOf(words, k, |words|)))
  }

  datatype Outcome = Sentence(tree: Tree, rest: string) | Nothing(rest: string) | Error(error: Error) | NeverEnds

  /** One call of next_sentence on the given text. */
  function SentenceAt(text: string, version: nat): Outcome {
    match Read(text, START, version)
    case Stuck => NeverEnds
    case Failed(e) => Outcome.Error(e)
    case Finished(st, rest) =>
      match FinishError(st)
      case Some(e) => Outcome.Error(e)
      case None =>
        if NoWords(st) then Nothing(rest)
        else Outcome.Sentence(Tree(WithChildren(st.words), st.mwts, st.empties, st.comments), rest)
  }

  // ---------- the reader object ----------

  /** Heads as read: no children yet, the root headless. */
  ghost predicate Unlinked(words: seq<Word>) {
    && |words| >= 1 && words[0].head == -1
    && forall k | 0 <= k < |words| :: words[k].children == []
  }

  /** The children lists link exactly the words below id. */
  ghost predicate LinkedBelow(read: seq<Word>, words: seq<Word>, id: nat) {
    && |words| == |read| && ChildrenAscending(words)
    && (forall k | 0 <= k < |words| :: words[k] == read[k].(children := words[k].children))
    && (forall k, c {:trigger c in words[k].children} | 0 <= k < |words| ::
          c in words[k].children <==> 0 <= c < id && c < |words| && read[c].head == k)
  }

  /** The words below id are linked, and none of them has a head that is too large. */
  ghost predicate Linking(read: seq<Word>, words: seq<Word>, id: nat) {
    && LinkedBelow(read, words, id) && HeadError(read, 1) == HeadError(read, id)
    && forall k | 1 <= k < id && k < |read| :: read[k].head < |read|
  }

  class Reader {
    var text: string
    const version: nat

    constructor (version: nat)
      ensures text == "" && this.version == version
    {
      this.text, this.version := "", version;
    }

    method SetText(text: string)
      modifies this`text
      ensures this.text == text
    {
      this.text := text;
    }

    /** Reads one sentence into s; the error is None both when a sentence was read and when the text ran out. */
    method NextSentence(s: Sentences.Sentence) returns (ok: bool, error: Option<Error>)
      requires SentenceAt(text, version) != NeverEnds
      modifies this`text, s
      ensures match SentenceAt(old(text), version)
              case Sentence(tree, rest) =>
                ok && error == None && text == rest && s.words == tree.words && s.multiwordTokens == tree.mwts
                && s.emptyNodes == tree.empties && s.comments == tree.comments
              case Nothing(rest) => !ok && error == None && text == rest && |s.words| == 1
              case Error(e) => !ok && error == Some(e)
              case NeverEnds => true
    {
      s.Clear();
      var last;
      last, error := ReadLines(s);
      if error.Some? { return false, error; }
      if last >= |s.words| { return false, Some(MissingWords); }
      error := LinkHeads(s);
      ok := error == None && |s.words| > 1;
    }

    /** The loop over the lines, from a cleared sentence. */
    method ReadLines(s: Sentences.Sentence) returns (last: int, error: Option<Error>)
      requires StateOf(s, 0) == START && Read(text, START, version) != Stuck
      modifies this`text, s
      ensures match Read(old(text), START, version)
              case Stuck => true
              case Failed(e) => error == Some(e)
              case Finished(st, rest) => error == None && StateOf(s, last) == st && text == rest && Unlinked(s.words)
    {
      last := 0;
      ghost var all := Read(text, START, version);
      while text != ""
        invariant all == Read(text, StateOf(s, last), version)
        invariant Unlinked(s.words)
        decreases |text|
      {
        var line := TakeLine();
        if line == "" {
          if |s.words| == 1 { continue; }
          return last, None;
        }
        if line[0] == '#' {
          if |s.words| == 1 { s.comments := s.comments + [line]; }
          continue;
        }
        var parsed := AddLine(s, last, line);
        match parsed {
          case Fail(e) => return last, Some(e);
          case Next(st) => last := st.last;
        }
      }
      error := None;
    }

    static ghost function StateOf(s: Sentences.Sentence, last: int): State
      reads s
    {
      State(s.words, s.multiwordTokens, s.emptyNodes, s.comments, last)
    }

    /** Moves the next line out of the text. */
    method TakeLine() returns (line: string)
      modifies this`text
      ensures line == FirstLine(old(text)) && text == AfterLine(old(text))
    {
      var n := 0;
      while n < |text| && !AtBreak(text[n])
        invariant 0 <= n <= |text|
        invariant n + LineLength(text[n..]) == LineLength(text)
      {
        assert text[n..][1..] == text[n + 1..];
        n := n + 1;
      }
      assert n == LineLength(text);
      line := text[..n];
      text := text[n..];
      if |text| >= 2 && text[0] == '\r' && text[1] == '\n' {
        text := text[2..];
      } else if text != "" && text[0] == '\n' {
        text := text[1..];
      }
    }

    /** Parses one word, multiword token or empty node line into the sentence. */
    method AddLine(s: Sentences.Sentence, last: int, line: string) returns (r: LineResult)
      requires line != "" && Unlinked(s.words)
      modifies s
      ensures r == ParseLine(old(StateOf(s, last)), line, version)
      ensures r.Next? ==> StateOf(s, r.state.last) == r.state && Unlinked(s.words)
    {
      ghost var st := StateOf(s, last);
      var cols := SplitText(line, '\t');
      if |cols| != 10 { return Fail(WrongColumnCount); }
      var bad := FindColumnError(cols);
      if bad.Some? { return Fail(bad.value); }
      if '-' in cols[0] {
        r := AddMultiwordLine(s, last, cols);
      } else if version >= 2 && '.' in cols[0] {
        r := AddEmptyNodeLine(s, last, cols);
      } else {
        r := AddWordLine(s, last, cols);
      }
    }

    method AddMultiwordLine(s: Sentences.Sentence, last: int, cols: seq<string>) returns (r: LineResult)
      requires |cols| == 10 && cols[0] != ""
      modifies s`multiwordTokens
      ensures r == ParseMultiword(old(StateOf(s, last)), cols, version)
      ensures r.Next? ==> StateOf(s, r.state.last) == r.state
    {
      var parts := SplitText(cols[0], '-');
      if |parts| != 2 { return Fail(BadMultiwordId); }
      var from := ParseIntLoop(parts[0]);
      var to := ParseIntLoop(parts[1]);
      if from.None? || to.None? { return Fail(BadNumber); }
      if from.value != |s.words| { return Fail(WrongMultiwordStart); }
      if to.value < from.value { return Fail(WrongMultiwordRange); }
      if from.value <= last { return Fail(OverlappingMultiword); }
      var filled := FindMultiwordColumnError(cols);
      if filled.Some? { return Fail(filled.value); }
      s.multiwordTokens := s.multiwordTokens +
        [MultiwordToken(from.value, to.value, cols[1], Blank(cols[5]), Blank(cols[9]))];
      return Next(State(s.words, s.multiwordTokens, s.emptyNodes, s.comments, to.value));
    }

    method AddEmptyNodeLine(s: Sentences.Sentence, last: int, cols: seq<string>) returns (r: LineResult)
      requires |cols| == 10 && cols[0] != ""
      modifies s`emptyNodes
      ensures r == ParseEmptyNode(old(StateOf(s, last)), cols)
      ensures r.Next? ==> StateOf(s, r.state.last) == r.state
    {
      var parts := SplitText(cols[0], '.');
      if |parts| != 2 { return Fail(BadEmptyNodeId); }
      var id := ParseIntLoop(parts[0]);
      var index := ParseIntLoop(parts[1]);
      if id.None? || index.None? { return Fail(BadNumber); }
      if id.value != |s.words| - 1 { return Fail(WrongEmptyNodeId); }
      if !NextEmptyNode(s.emptyNodes, id.value, index.value) { return Fail(WrongEmptyNodeIndex); }
      if cols[6] != "_" { return Fail(FilledEmptyNodeColumn(6)); }
      if cols[7] != "_" { return Fail(FilledEmptyNodeColumn(7)); }
      s.emptyNodes := s.emptyNodes +
        [EmptyNode(id.value, index.value, cols[1], cols[2], Blank(cols[3]), Blank(cols[4]), Blank(cols[5]),
                   Blank(cols[8]), Blank(cols[9]))];
      return Next(State(s.words, s.multiwordTokens, s.emptyNodes, s.comments, last));
    }

    method AddWordLine(s: Sentences.Sentence, last: int, cols: seq<string>) returns (r: LineResult)
      requires |cols| == 10 && Unlinked(s.words)
      modifies s`words
      ensures r == ParseWord(old(StateOf(s, last)), cols)
      ensures r.Next? ==> StateOf(s, r.state.last) == r.state && Unlinked(s.words)
    {
      var id := ParseIntLoop(cols[0]);
      if id.None? { return Fail(BadNumber); }
      if id.value != |s.words| { return Fail(WrongWordId); }
      var head := -1;
      if cols[6] != "_" {
        var parsed := ParseIntLoop(cols[6]);
        if parsed.None? { return Fail(BadNumber); }
        head := parsed.value;
        if head < 0 { return Fail(NegativeHead); }
      }
      var n := |s.words|;
      s.AddWord(cols[1]);
      s.words := s.words[n := s.words[n].(
        lem := cols[2], upostag := Blank(cols[3]), xpostag := Blank(cols[4]), feats := Blank(cols[5]),
        head := head, deprel := Blank(cols[7]), deps := Blank(cols[8]), misc := Blank(cols[9]))];
      return Next(State(s.words, s.multiwordTokens, s.emptyNodes, s.comments, last));
    }

    method FindColumnError(cols: seq<string>) returns (r: Option<Error>)
      requires |cols| == 10
      ensures r == ColumnError(cols, version, 0)
    {
      for i := 0 to 10
        invariant ColumnError(cols, version, 0) == ColumnError(cols, version, i)
      {
        if cols[i] == "" { return Some(EmptyColumn(i)); }
        if !MayHoldSpaces(version, i) && ' ' in cols[i] { return Some(SpacesInColumn(i)); }
      }
      return None;
    }

    method FindMultiwordColumnError(cols: seq<string>) returns (r: Option<Error>)
      requires |cols| == 10
      ensures r == MultiwordColumnError(cols, version, 2)
    {
      for i := 2 to 9
        invariant MultiwordColumnError(cols, version, 2) == MultiwordColumnError(cols, version, i)
      {
        if cols[i] != "_" && !(version >= 2 && i == 5 && cols[i] == "Typo=Yes") {
          return Some(FilledMultiwordColumn(i));
        }
      }
      return None;
    }

    /** The final loop: links every word that has a head, through set_head. */
    method LinkHeads(s: Sentences.Sentence) returns (error: Option<Error>)
      requires Unlinked(s.words)
      modifies s`words
      ensures error == HeadError(old(s.words), 1)
      ensures error == None ==> s.words == WithChildren(old(s.words))
    {
      ghost var read := s.words;
      for id := 1 to |s.words|
        invariant Linking(read, s.words, id)
      {
        assert s.words[id] == read[id].(children := s.words[id].children);
        if s.words[id].head >= 0 {
          if s.words[id].head >= |s.words| { return Some(HeadTooLarge(id)); }
          LinkHead(s, id, read);
        } else {
          LinkedOne(read, s.words, s.words, id);
        }
        assert HeadError(read, id) == HeadError(read, id + 1);
      }
      AllLinked(read, s.words);
      return None;
    }

    method LinkHead(s: Sentences.Sentence, id: nat, ghost read: seq<Word>)
      requires LinkedBelow(read, s.words, id) && id < |read| == |s.words| && 0 <= read[id].head < |read|
      requires s.words[id] == read[id].(children := s.words[id].children)
      modifies s`words
      ensures LinkedBelow(read, s.words, id + 1)
    {
      ghost var before := s.words;
      s.SetHead(id, s.words[id].head, s.words[id].deprel);
      assert s.words[id] == before[id].(children := s.words[id].children);
      LinkedOne(read, before, s.words, id);
    }
  }

  /** Linking word id extends the linked words by one. */
  lemma {:induction false} LinkedOne(read: seq<Word>, before: seq<Word>, words: seq<Word>, id: nat)
    requires LinkedBelow(read, before, id) && id < |read| && read[id].head < |read|
    requires |words| == |before| && ChildrenAscending(words)
    requires if read[id].head < 0 then words == before
             else && (forall k {:trigger words[k]} | 0 <= k < |words| ::
                        words[k] == before[k].(children := words[k].children))
                  && (forall k, c {:trigger c in words[k].children} | 0 <= k < |words| ::
                        c in words[k].children <==>
                        || (k == read[id].head && c == id)
                        || (c in before[k].children && !(c == id && k == before[id].head)))
    ensures LinkedBelow(read, words, id + 1)
  {
    assert before[id] == read[id].(children := before[id].children);
    forall k | 0 <= k < |words| ensures words[k] == read[k].(children := words[k].children) {
      assert before[k] == read[k].(children := before[k].children);
      if read[id].head >= 0 { assert words[k] == before[k].(children := words[k].children); }
    }
  }

  lemma {:induction false} AllLinked(read: seq<Word>, words: seq<Word>)
    requires LinkedBelow(read, words, |read|)
    ensures words == WithChildren(read)
  {
    forall k | 0 <= k < |words| ensures words[k] == WithChildren(read)[k] {
      AscendingUnique(words[k].children, ChildrenOf(read, k, |read|));
    }
  }
}
