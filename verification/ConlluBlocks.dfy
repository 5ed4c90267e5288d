/** Reading a stream block by block (src/utils/getpara.h, src/model/pipeline.cpp:87-102) against
    reading the whole of it at once. */
module ConlluBlocks {
  import opened Sentences
  import opened Sequences
  import opened Strings
  import opened ConlluReader
  import opened ConlluRoundTrip

  /** All sentences of a text, and how reading stopped: at the end of the text, with an error, or never. */
  datatype Stop = Done | Broken(error: Error) | Endless

  datatype All = All(trees: seq<Tree>, stop: Stop)

  lemma {:induction false} ReadConsumes(text: string, st: State, version: nat)
    ensures var r := Read(text, st, version);
            r.Finished? ==>
              && |r.rest| <= |text|
              && (NoWords(st) && !NoWords(r.state) ==> |r.rest| < |text|)
              && (NoWords(r.state) ==> r.rest == "")
    decreases |text|
  {
    if text != "" {
      var line, rest := FirstLine(text), AfterLine(text);
      if line == "" {
        if NoWords(st) && |rest| < |text| { ReadConsumes(rest, st, version); }
      } else if line[0] == '#' {
        ReadConsumes(rest, if NoWords(st) then st.(comments := st.comments + [line]) else st, version);
      } else if ParseLine(st, line, version).Next? {
        ReadConsumes(rest, ParseLine(st, line, version).state, version);
      }
    }
  }

  /** The loop of the pipeline over one text. */
  function ReadAll(text: string, version: nat): All
    decreases |text|
  {
    ReadConsumes(text, START, version);
    match SentenceAt(text, version)
    case NeverEnds => All([], Endless)
    case Error(e) => All([], Broken(e))
    case Nothing(_) => All([], Done)
    case Sentence(tree, rest) =>
      var all := ReadAll(rest, version);
      All([tree] + all.trees, all.stop)
  }

  // ---------- a block that ends in an empty line ----------

  predicate BlankEnded(b: string) {
    b == "\n" || (|b| >= 2 && b[|b| - 2] == '\n' && b[|b| - 1] == '\n')
  }

  /** Inside a text that ends in a line feed the first line and what follows it do not depend on later text. */
  lemma {:induction false} LineBefore(b: string, rest: string)
    requires b != "" && b[|b| - 1] == '\n'
    ensures LineLength(b) < |b|
    ensures FirstLine(b + rest) == FirstLine(b) && AfterLine(b + rest) == AfterLine(b) + rest
  {
    var n := LineLength(b);
    EndsInLine(b);
    LineLengthMore(b, rest);
    Slices(b, rest, n);
    SkipBreakMore(b[n..], rest);
  }

  lemma {:induction false} Slices(b: string, rest: string, n: nat)
    requires n < |b|
    ensures (b + rest)[..n] == b[..n] && (b + rest)[n..] == b[n..] + rest && b[n..][|b| - n - 1] == b[|b| - 1]
  {
  }

  lemma {:induction false} EndsInLine(b: string)
    requires b != "" && b[|b| - 1] == '\n'
    ensures LineLength(b) < |b|
    decreases |b|
  {
    if !AtBreak(b[0]) { EndsInLine(b[1..]); }
  }

  lemma {:induction false} SkipBreakMore(tail: string, rest: string)
    requires tail != "" && tail[|tail| - 1] == '\n'
    ensures SkipBreak(tail + rest) == SkipBreak(tail) + rest
  {
  }

  lemma {:induction false} BlockLine(b: string, rest: string)
    requires BlankEnded(b)
    ensures FirstLine(b + rest) == FirstLine(b) && AfterLine(b + rest) == AfterLine(b) + rest
    ensures if AfterLine(b) == "" then FirstLine(b) == "" else BlankEnded(AfterLine(b))
  {
    LineBefore(b, rest);
    BlockAfterLine(b);
  }

  lemma {:induction false} BlockAfterLine(b: string)
    requires BlankEnded(b)
    ensures if AfterLine(b) == "" then FirstLine(b) == "" else BlankEnded(AfterLine(b))
  {
    var n, after := LineLength(b), AfterLine(b);
    assert forall k | 0 <= k < |after| :: after[k] == b[|b| - |after| + k];
    LineUnbroken(b);
  }

  lemma {:induction false} LineLengthMore(b: string, rest: string)
    requires LineLength(b) < |b|
    ensures LineLength(b + rest) == LineLength(b)
    decreases |b|
  {
    if !AtBreak(b[0]) {
      assert (b + rest)[1..] == b[1..] + rest;
      LineLengthMore(b[1..], rest);
    }
  }

  /** Reading a block followed by more text: the same sentence with the block's rest kept in front of that text,
      or, when the block runs out without a word, reading goes on with what it left. */
  function Onward(r: Reading, rest: string, version: nat): Reading {
    match r
    case Finished(state, left) => if NoWords(state) then Read(rest, state, version) else Finished(state, left + rest)
    case _ => r
  }

  lemma {:induction false} ReadBlock(b: string, rest: string, st: State, version: nat)
    requires BlankEnded(b)
    ensures Read(b + rest, st, version) == Onward(Read(b, st, version), rest, version)
    decreases |b|
  {
    var line, after := FirstLine(b), AfterLine(b);
    BlockLine(b, rest);
    assert b + rest != "";
    if line == "" {
      if NoWords(st) && |after| < |b| {
        if after != "" { ReadBlock(after, rest, st, version); } else { assert after + rest == rest; }
      }
    } else if line[0] == '#' {
      ReadBlock(after, rest, if NoWords(st) then st.(comments := st.comments + [line]) else st, version);
    } else if ParseLine(st, line, version).Next? {
      ReadBlock(after, rest, ParseLine(st, line, version).state, version);
    }
  }

  /** After a sentence the block's rest is used up or still ends in an empty line. */
  lemma {:induction false} RestBlankEnded(b: string, st: State, version: nat)
    requires BlankEnded(b) && Read(b, st, version).Finished?
    ensures Read(b, st, version).rest == "" || BlankEnded(Read(b, st, version).rest)
    decreases |b|
  {
    var line, after := FirstLine(b), AfterLine(b);
    BlockLine(b, "");
    if line == "" {
      if NoWords(st) && |after| < |b| && after != "" { RestBlankEnded(after, st, version); }
    } else if line[0] == '#' {
      RestBlankEnded(after, if NoWords(st) then st.(comments := st.comments + [line]) else st, version);
    } else if ParseLine(st, line, version).Next? {
      RestBlankEnded(after, ParseLine(st, line, version).state, version);
    }
  }

  // ---------- what a block leaves ----------

  /** What is read but not yet part of a sentence when a text runs out: comments, multiword tokens and empty nodes after
      which no word came. None if reading stops before, with an error or without end. */
  function Left(text: string, version: nat): (r: Option<State>)
    ensures r.Some? ==> NoWords(r.value)
    decreases |text|
  {
    ReadConsumes(text, START, version);
    match Read(text, START, version)
    case Stuck => None
    case Failed(_) => None
    case Finished(st, rest) =>
      if NoWords(st) then Some(st)
      else if FinishError(st).Some? then None
      else Left(rest, version)
  }

  predicate Leaves(text: string, version: nat) {
    Left(text, version).Some? && Left(text, version).value != START
  }

  function TreeOf(st: State): Tree { Tree(WithChildren(st.words), st.mwts, st.empties, st.comments) }

  /** All sentences of a text when reading starts with st. */
  function ReadFrom(text: string, st: State, version: nat): All {
    match Read(text, st, version)
    case Stuck => All([], Endless)
    case Failed(e) => All([], Broken(e))
    case Finished(st', rest) =>
      match FinishError(st')
      case Some(e) => All([], Broken(e))
      case None =>
        if NoWords(st') then All([], Done)
        else All([TreeOf(st')] + ReadAll(rest, version).trees, ReadAll(rest, version).stop)
  }

  function Prepend(trees: seq<Tree>, all: All): All { All(trees + all.trees, all.stop) }

  /** Two texts read one after the other: the second only if the first is read to its end. */
  function Then(a: All, b: All): All { if a.stop.Done? then Prepend(a.trees, b) else a }

  lemma {:induction false} ReadAllFromStart(text: string, version: nat)
    ensures ReadAll(text, version) == ReadFrom(text, START, version)
  {
  }

  lemma {:induction false} PrependTwice(t: Tree, trees: seq<Tree>, all: All)
    ensures Prepend([t] + trees, all) == Prepend([t], Prepend(trees, all))
  {
    Assoc([t], trees, all.trees);
  }

  /** A block and more text, read at once: nothing after the block is read if reading stopped in it; otherwise its
      sentences come first, and reading goes on with what the block left. Errors are included. */
  lemma {:induction false} BlockJoin(b: string, rest: string, version: nat)
    requires b == "" || BlankEnded(b)
    ensures ReadAll(b + rest, version) ==
            if Left(b, version).None? then ReadAll(b, version)
            else Prepend(ReadAll(b, version).trees, ReadFrom(rest, Left(b, version).value, version))
    decreases |b|
  {
    if b == "" {
      assert b + rest == rest;
      ReadAllFromStart(rest, version);
    } else {
      ReadBlock(b, rest, START, version);
      if SentenceAt(b, version).Sentence? {
        SentenceOfBlock(b, rest, version);
        BlockJoin(SentenceAt(b, version).rest, rest, version);
        SentenceJoin(b, rest, version);
      } else {
        BlockWithoutSentence(b, rest, version);
      }
    }
  }

  lemma {:induction false} BlockWithoutSentence(b: string, rest: string, version: nat)
    requires BlankEnded(b) && !SentenceAt(b, version).Sentence?
    requires Read(b + rest, START, version) == Onward(Read(b, START, version), rest, version)
    ensures ReadAll(b + rest, version) ==
            if Left(b, version).None? then ReadAll(b, version)
            else Prepend(ReadAll(b, version).trees, ReadFrom(rest, Left(b, version).value, version))
  {
    ReadAllFromStart(b + rest, version);
    assert [] + ReadAll(b + rest, version).trees == ReadAll(b + rest, version).trees;
  }

  /** A sentence in front of a block and of more text, with what holds behind it. */
  lemma {:induction false} SentenceJoin(b: string, rest: string, version: nat)
    requires SentenceAt(b, version).Sentence? && |SentenceAt(b, version).rest| < |b|
    requires var o := SentenceAt(b, version); SentenceAt(b + rest, version) == Outcome.Sentence(o.tree, o.rest + rest)
    requires var left := SentenceAt(b, version).rest;
             ReadAll(left + rest, version) ==
             if Left(left, version).None? then ReadAll(left, version)
             else Prepend(ReadAll(left, version).trees, ReadFrom(rest, Left(left, version).value, version))
    ensures ReadAll(b + rest, version) ==
            if Left(b, version).None? then ReadAll(b, version)
            else Prepend(ReadAll(b, version).trees, ReadFrom(rest, Left(b, version).value, version))
  {
    var tree, left := SentenceAt(b, version).tree, SentenceAt(b, version).rest;
    if Left(b, version).Some? {
      PrependTwice(tree, ReadAll(left, version).trees, ReadFrom(rest, Left(b, version).value, version));
    }
  }

  lemma {:induction false} SentenceOfBlock(b: string, rest: string, version: nat)
    requires BlankEnded(b) && SentenceAt(b, version).Sentence?
    requires Read(b + rest, START, version) == Onward(Read(b, START, version), rest, version)
    ensures var o := SentenceAt(b, version);
            && (o.rest == "" || BlankEnded(o.rest)) && |o.rest| < |b|
            && SentenceAt(b + rest, version) == Outcome.Sentence(o.tree, o.rest + rest)
  {
    ReadConsumes(b, START, version);
    RestBlankEnded(b, START, version);
  }

  /** How reading stops says what is left: it stops early exactly when nothing is said to be left, or when a multiword
      token is left without its words. */
  lemma {:induction false} StopOfLeft(text: string, version: nat)
    ensures ReadAll(text, version).stop ==
            if Left(text, version).None? then ReadAll(text, version).stop
            else if FinishError(Left(text, version).value) == None then Done
            else Broken(FinishError(Left(text, version).value).value)
    ensures Left(text, version).None? ==> !ReadAll(text, version).stop.Done?
    decreases |text|
  {
    if SentenceAt(text, version).Sentence? {
      ReadConsumes(text, START, version);
      StopOfLeft(SentenceAt(text, version).rest, version);
    }
  }

  /** Blocks may be read one by one: if a block leaves nothing behind, reading it and then the rest is reading both at
      once, errors included. */
  lemma {:induction false} BlockThenRest(b: string, rest: string, version: nat)
    requires b == "" || BlankEnded(b)
    requires !Leaves(b, version)
    ensures ReadAll(b + rest, version) == Then(ReadAll(b, version), ReadAll(rest, version))
  {
    BlockJoin(b, rest, version);
    StopOfLeft(b, version);
    ReadAllFromStart(rest, version);
  }

  // ---------- getpara ----------

  datatype Para = Para(block: string, rest: string)

  /** Lines up to and including the first empty one, each with its line feed; the last line gets one too. */
  function GetPara(text: string): (p: Para)
    ensures text != "" ==> |p.rest| < |text|
    decreases |text|
  {
    if text == "" then Para("", "")
    else
      var k := IndexOf(text, '\n');
      var line, after := text[..k] + "\n", if k < |text| then text[k + 1..] else "";
      if k == 0 then Para(line, after)
      else
        var p := GetPara(after);
        Para(line + p.block, p.rest)
  }

  function Terminated(text: string): string {
    if text == "" || text[|text| - 1] == '\n' then text else text + "\n"
  }

  lemma {:induction false} TerminatedLine(text: string)
    requires text != ""
    ensures var k := IndexOf(text, '\n');
            Terminated(text) == (text[..k] + "\n") + Terminated(if k < |text| then text[k + 1..] else "")
  {
    var k := IndexOf(text, '\n');
    if k < |text| {
      var after := text[k + 1..];
      assert text == (text[..k] + "\n") + after;
      if after != "" { assert text[|text| - 1] == after[|after| - 1]; }
    } else {
      NoneBefore(text, '\n');
      assert text[..k] == text && text[|text| - 1] in text;
    }
  }

  /** The blocks are consecutive pieces of the newline-terminated text ... */
  lemma {:induction false} ParaSplits(text: string)
    ensures Terminated(text) == GetPara(text).block + Terminated(GetPara(text).rest)
    decreases |text|
  {
    if text != "" {
      TerminatedLine(text);
      var k := IndexOf(text, '\n');
      var line, after := text[..k] + "\n", if k < |text| then text[k + 1..] else "";
      if k > 0 {
        ParaSplits(after);
        var p := GetPara(after);
        assert line + (p.block + Terminated(p.rest)) == (line + p.block) + Terminated(p.rest);
      }
    }
  }

  /** ... and each one that is not the last ends in an empty line. */
  lemma {:induction false} ParaBlankEnded(text: string)
    requires GetPara(text).rest != ""
    ensures BlankEnded(GetPara(text).block)
    decreases |text|
  {
    var k := IndexOf(text, '\n');
    if k > 0 {
      var line, after := text[..k] + "\n", if k < |text| then text[k + 1..] else "";
      ParaBlankEnded(after);
      var p := GetPara(after);
      BlankEndedMore(line, p.block);
    }
  }

  lemma {:induction false} BlankEndedMore(line: string, b: string)
    requires line != "" && line[|line| - 1] == '\n' && BlankEnded(b)
    ensures BlankEnded(line + b)
  {
  }

  /** The read loop of getpara. */
  method ReadPara(text: string) returns (p: Para)
    ensures p == GetPara(text)
  {
    var para, stream := "", text;
    while stream != ""
      invariant Para(para + GetPara(stream).block, GetPara(stream).rest) == GetPara(text)
      decreases |stream|
    {
      ghost var before := stream;
      var k := Find(stream, '\n', 0);
      assert stream[0..] == stream;
      var line := stream[..k];
      stream := if k < |stream| then stream[k + 1..] else "";
      assert para + ((line + "\n") + GetPara(stream).block) == (para + (line + "\n")) + GetPara(stream).block;
      para := para + (line + "\n");
      if line == "" {
        return Para(para, stream);
      }
    }
    return Para(para, stream);
  }

  /** The pipeline over blocks: sentences of each block until the stream is empty or an error stops it. */
  function ReadBlocks(text: string, version: nat): All
    decreases |text|
  {
    if text == "" then All([], Done)
    else
      var p := GetPara(text);
      Then(ReadAll(p.block, version), ReadBlocks(p.rest, version))
  }
}
