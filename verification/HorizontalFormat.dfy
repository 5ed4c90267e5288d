/** The horizontal format, one sentence a line: reader src/sentence/input_format.cpp:245-299 and writer
    src/sentence/output_format.cpp:281-299, on the forms of the words. The writer turns the spaces inside a form into
    no-break spaces and puts one space between forms; the reader splits at spaces and tabs and turns no-break spaces
    back. Empty lines, which the writer may put before a sentence, are skipped. Strings are bytes, and the two
    replacements are those of TagLemmaCodec. */
module HorizontalFormat {
  import opened Sequences
  import opened Utf8
  import opened TagLemmaCodec

  const TAB: byte := 0x09
  const LF: byte := 0x0A
  const CR: byte := 0x0D

  predicate IsGap(b: byte) { b == SPACE || b == TAB }

  predicate IsBreak(b: byte) { b == CR || b == LF }

  // ---------- reading ----------

  function SkipBlank(s: Bytes): (r: Bytes)
    ensures |r| <= |s| && (r != [] ==> !IsGap(r[0]) && !IsBreak(r[0]))
  {
    if s != [] && (IsGap(s[0]) || IsBreak(s[0])) then SkipBlank(s[1..]) else s
  }

  function SkipGap(s: Bytes): (r: Bytes)
    ensures |r| <= |s| && (r != [] ==> !IsGap(r[0]))
  {
    if s != [] && IsGap(s[0]) then SkipGap(s[1..]) else s
  }

  function WordLength(s: Bytes): (k: nat)
    ensures k <= |s|
  {
    if s == [] || IsGap(s[0]) || IsBreak(s[0]) then 0 else 1 + WordLength(s[1..])
  }

  datatype Line = Line(forms: seq<Bytes>, rest: Bytes)

  /** The words up to the next line break, which is left. */
  function ReadWords(s: Bytes): Line
    requires s != [] ==> !IsGap(s[0])
    decreases |s|
  {
    if s == [] || IsBreak(s[0]) then Line([], s)
    else
      var k := WordLength(s);
      var next := ReadWords(SkipGap(s[k..]));
      Line([RestoreSpaces(s[..k])] + next.forms, next.rest)
  }

  function Read(text: Bytes): (r: Line)
    ensures r.forms != [] ==> |r.rest| < |text|
  {
    var s := SkipBlank(text);
    RestShorter(s);
    ReadWords(s)
  }

  lemma {:induction false} RestShorter(s: Bytes)
    requires s != [] ==> !IsGap(s[0])
    ensures |ReadWords(s).rest| <= |s| && (ReadWords(s).forms != [] ==> |ReadWords(s).rest| < |s|)
    decreases |s|
  {
    if s != [] && !IsBreak(s[0]) { RestShorter(SkipGap(s[WordLength(s)..])); }
  }

  /** All sentences of a text. */
  function ReadAll(text: Bytes): seq<seq<Bytes>>
    decreases |text|
  {
    var line := Read(text);
    if line.forms == [] then [] else [line.forms] + ReadAll(line.rest)
  }

  // ---------- writing ----------

  function WriteWords(forms: seq<Bytes>): Bytes {
    if forms == [] then []
    else if |forms| == 1 then NormalizeLemma(forms[0])
    else NormalizeLemma(forms[0]) + [SPACE] + WriteWords(forms[1..])
  }

  /** A sentence to write, after an empty line if a new paragraph is marked. */
  datatype Item = Item(emptyLine: bool, forms: seq<Bytes>)

  function WriteAll(items: seq<Item>): Bytes {
    if items == [] then []
    else (if items[0].emptyLine then [LF] else []) + (WriteWords(items[0].forms) + ([LF] + WriteAll(items[1..])))
  }

  function FormsOf(items: seq<Item>): seq<seq<Bytes>> {
    if items == [] then [] else [items[0].forms] + FormsOf(items[1..])
  }

  // ---------- what is read ----------

  function GapLength(s: Bytes): (n: nat)
    ensures n <= |s|
  {
    if s == [] || !IsGap(s[0]) then 0 else 1 + GapLength(s[1..])
  }

  ghost predicate GapFree(s: Bytes) { forall i | 0 <= i < |s| :: !IsGap(s[i]) && !IsBreak(s[i]) }

  /** The line is these words, each without spaces, tabs and line breaks, with spaces or tabs between them and perhaps
      behind the last one. */
  ghost predicate Words(line: Bytes, ws: seq<Bytes>)
    decreases |ws|
  {
    if ws == [] then line == []
    else
      && ws[0] != [] && GapFree(ws[0]) && ws[0] <= line
      && var gap := line[|ws[0]|..];
         (|ws| > 1 ==> GapLength(gap) > 0) && Words(gap[GapLength(gap)..], ws[1..])
  }

  lemma {:induction false} GapSkips(s: Bytes)
    ensures SkipGap(s) == s[GapLength(s)..] && (SkipGap(s) != [] ==> !IsGap(SkipGap(s)[0]))
    decreases |s|
  {
    if s != [] && IsGap(s[0]) {
      GapSkips(s[1..]);
      assert s[GapLength(s)..] == s[1..][GapLength(s[1..])..];
    }
  }

  lemma {:induction false} WordFree(s: Bytes)
    ensures GapFree(s[..WordLength(s)])
    ensures WordLength(s) < |s| ==> IsGap(s[WordLength(s)]) || IsBreak(s[WordLength(s)])
    decreases |s|
  {
    if s != [] && !IsGap(s[0]) && !IsBreak(s[0]) {
      WordFree(s[1..]);
      assert s[..WordLength(s)] == [s[0]] + s[1..][..WordLength(s[1..])];
    }
  }

  /** What is read of a line, told from its words: all of them are kept, in order, with their no-break spaces as spaces,
      up to the line break or the end of the text. */
  lemma {:induction false} ReadMeans(s: Bytes) returns (line: Bytes, ws: seq<Bytes>)
    requires s != [] ==> !IsGap(s[0])
    ensures s == line + ReadWords(s).rest && Words(line, ws) && |ws| == |ReadWords(s).forms|
    ensures forall k | 0 <= k < |ws| :: ReadWords(s).forms[k] == RestoreSpaces(ws[k])
    ensures forall i | 0 <= i < |line| :: !IsBreak(line[i])
    ensures ReadWords(s).rest == [] || IsBreak(ReadWords(s).rest[0])
    decreases |s|
  {
    if s == [] || IsBreak(s[0]) {
      line, ws := [], [];
    } else {
      var k := WordLength(s);
      var w, gap := s[..k], s[k..][..GapLength(s[k..])];
      var more, others := ReadMeans(SkipGap(s[k..]));
      line, ws := w + gap + more, [w] + others;
      WordInFront(s, w, gap, more, others, ReadWords(s).rest);
    }
  }

  /** A word and the gap behind it in front of more words. */
  lemma {:induction false} WordInFront(s: Bytes, w: Bytes, gap: Bytes, more: Bytes, others: seq<Bytes>, rest: Bytes)
    requires s != [] && !IsGap(s[0]) && !IsBreak(s[0]) && w == s[..WordLength(s)]
    requires var g := s[WordLength(s)..]; gap == g[..GapLength(g)] && SkipGap(g) == more + rest
    requires Words(more, others) && (rest == [] || IsBreak(rest[0]))
    requires forall i | 0 <= i < |more| :: !IsBreak(more[i])
    ensures s == w + gap + more + rest && Words(w + gap + more, [w] + others)
    ensures forall i | 0 <= i < |w + gap + more| :: !IsBreak((w + gap + more)[i])
  {
    var g := s[WordLength(s)..];
    WordFree(s);
    GapSkips(g);
    AllGap(g);
    CutTogether(s, w, g, gap, more, rest);
    GapOnly(gap, more, rest);
    GapBetween(g, more, others, rest);
    WordsCons(w, gap, more, others);
    BreakFree(w, gap, more);
  }

  /** Behind a word comes a gap if more words follow. */
  lemma {:induction false} GapBetween(g: Bytes, more: Bytes, others: seq<Bytes>, rest: Bytes)
    requires g == [] || IsGap(g[0]) || IsBreak(g[0])
    requires g[GapLength(g)..] == more + rest && Words(more, others)
    ensures others != [] ==> GapLength(g) > 0
  {
    if others != [] {
      FirstWord(more, others);
      assert (more + rest)[0] == more[0];
    }
  }

  lemma {:induction false} BreakFree(w: Bytes, gap: Bytes, more: Bytes)
    requires GapFree(w)
    requires (forall i | 0 <= i < |gap| :: IsGap(gap[i])) && (forall i | 0 <= i < |more| :: !IsBreak(more[i]))
    ensures forall i | 0 <= i < |w + gap + more| :: !IsBreak((w + gap + more)[i])
  {
    forall i | 0 <= i < |w + gap + more| ensures !IsBreak((w + gap + more)[i]) {
      if i >= |w| { assert (w + gap + more)[i] == (gap + more)[i - |w|]; }
    }
  }

  lemma {:induction false} CutTogether(s: Bytes, w: Bytes, g: Bytes, gap: Bytes, more: Bytes, rest: Bytes)
    requires w <= s && g == s[|w|..] && gap <= g && g[|gap|..] == more + rest
    ensures s == w + gap + more + rest && g == gap + (more + rest)
  {
  }

  lemma {:induction false} FirstWord(line: Bytes, ws: seq<Bytes>)
    requires ws != [] && Words(line, ws)
    ensures line != [] && !IsGap(line[0]) && !IsBreak(line[0])
  {
    assert line[0] == ws[0][0];
  }

  lemma {:induction false} WordsCons(w: Bytes, gap: Bytes, more: Bytes, others: seq<Bytes>)
    requires w != [] && GapFree(w) && GapLength(gap + more) == |gap| && (others != [] ==> gap != [])
    requires Words(more, others)
    ensures Words(w + gap + more, [w] + others)
  {
    var line := w + gap + more;
    assert line[|w|..] == gap + more && (gap + more)[|gap|..] == more && ([w] + others)[1..] == others;
    assert line[..|w|] == w;
  }

  lemma {:induction false} AllGap(g: Bytes)
    ensures forall i | 0 <= i < GapLength(g) :: IsGap(g[i])
    decreases |g|
  {
    if g != [] && IsGap(g[0]) { AllGap(g[1..]); }
  }

  lemma {:induction false} GapOnly(gap: Bytes, more: Bytes, rest: Bytes)
    requires (forall i | 0 <= i < |gap| :: IsGap(gap[i])) && (more + rest != [] ==> !IsGap((more + rest)[0]))
    ensures GapLength(gap + more) == |gap|
    decreases |gap|
  {
    if gap == [] {
      assert gap + more == more;
    } else {
      assert (gap + more)[1..] == gap[1..] + more;
      GapOnly(gap[1..], more, rest);
    }
  }

  // ---------- the round trip ----------

  predicate Unbroken(s: Bytes) { TAB !in s && CR !in s && LF !in s }

  /** A form that the format can carry. */
  predicate Plain(form: Bytes) { form != [] && Unbroken(form) && !HasNbsp(form) }

  predicate AllPlain(forms: seq<Bytes>) { forms == [] || (Plain(forms[0]) && AllPlain(forms[1..])) }

  predicate Carried(items: seq<Item>) {
    items == [] || (items[0].forms != [] && AllPlain(items[0].forms) && Carried(items[1..]))
  }

  /** A written form has no byte the reader stops at. */
  lemma {:induction false} WrittenWord(form: Bytes)
    requires Unbroken(form)
    ensures SPACE !in NormalizeLemma(form) && Unbroken(NormalizeLemma(form))
    ensures form != [] ==> NormalizeLemma(form) != []
    decreases |form|
  {
    if form != [] {
      WrittenWord(form[1..]);
      assert Encode(0xA0) == [C2, A0];
      assert form[0] in form;
    }
  }

  lemma {:induction false} WordEnds(w: Bytes, tail: Bytes)
    requires SPACE !in w && Unbroken(w) && (tail == [] || IsGap(tail[0]) || IsBreak(tail[0]))
    ensures WordLength(w + tail) == |w|
    decreases |w|
  {
    if w == [] {
      assert w + tail == tail;
    } else {
      assert w[0] in w && (w + tail)[1..] == w[1..] + tail;
      WordEnds(w[1..], tail);
    }
  }

  /** One word and the words after it. */
  lemma {:induction false} ReadStep(w: Bytes, tail: Bytes)
    requires w != [] && SPACE !in w && Unbroken(w) && (tail == [] || IsGap(tail[0]) || IsBreak(tail[0]))
    ensures !IsGap((w + tail)[0]) && !IsBreak((w + tail)[0])
    ensures ReadWords(w + tail) ==
            Line([RestoreSpaces(w)] + ReadWords(SkipGap(tail)).forms, ReadWords(SkipGap(tail)).rest)
  {
    assert w[0] in w;
    WordEnds(w, tail);
    assert (w + tail)[..|w|] == w && (w + tail)[|w|..] == tail;
  }

  /** A plain sentence comes back, and the line break after it is left. */
  lemma {:induction false} WordsRead(forms: seq<Bytes>, rest: Bytes)
    requires forms != [] && AllPlain(forms)
    ensures var s := WriteWords(forms) + ([LF] + rest);
            !IsGap(s[0]) && !IsBreak(s[0]) && ReadWords(s) == Line(forms, [LF] + rest)
    decreases |forms|
  {
    var f, w := forms[0], NormalizeLemma(forms[0]);
    WrittenWord(f);
    SpacesRoundTrip(f);
    if |forms| == 1 {
      ReadStep(w, [LF] + rest);
      assert forms == [f];
    } else {
      WordsRead(forms[1..], rest);
      FirstWritten(forms, [LF] + rest);
      WordThenRest(w, WriteWords(forms[1..]) + ([LF] + rest));
      assert forms == [f] + forms[1..];
    }
  }

  lemma {:induction false} WordThenRest(w: Bytes, later: Bytes)
    requires w != [] && SPACE !in w && Unbroken(w) && later != [] && !IsGap(later[0])
    ensures var s := w + ([SPACE] + later);
            && !IsGap(s[0]) && !IsBreak(s[0])
            && ReadWords(s) == Line([RestoreSpaces(w)] + ReadWords(later).forms, ReadWords(later).rest)
  {
    ReadStep(w, [SPACE] + later);
    GapSkipped(later);
  }

  lemma {:induction false} FirstWritten(forms: seq<Bytes>, tail: Bytes)
    requires |forms| > 1
    ensures WriteWords(forms) + tail == NormalizeLemma(forms[0]) + ([SPACE] + (WriteWords(forms[1..]) + tail))
  {
    Assoc(NormalizeLemma(forms[0]) + [SPACE], WriteWords(forms[1..]), tail);
    Assoc(NormalizeLemma(forms[0]), [SPACE], WriteWords(forms[1..]) + tail);
  }

  lemma {:induction false} GapSkipped(s: Bytes)
    requires s != [] && !IsGap(s[0])
    ensures SkipGap([SPACE] + s) == s
  {
    assert ([SPACE] + s)[1..] == s;
  }

  lemma {:induction false} BlankSkipped(s: Bytes)
    ensures Read([LF] + s) == Read(s)
  {
    assert ([LF] + s)[1..] == s;
  }

  lemma {:induction false} CarriedRead(items: seq<Item>)
    requires Carried(items)
    ensures ReadAll(WriteAll(items)) == FormsOf(items)
    ensures ReadAll([LF] + WriteAll(items)) == ReadAll(WriteAll(items))
    decreases |items|
  {
    BlankSkipped(WriteAll(items));
    if items != [] {
      var later := WriteAll(items[1..]);
      WordsRead(items[0].forms, later);
      CarriedRead(items[1..]);
      var line := WriteWords(items[0].forms) + ([LF] + later);
      BlankSkipped(line);
      assert [] + line == line;
      assert Read(line) == Line(items[0].forms, [LF] + later);
    }
  }

  // ---------- only plain forms are read ----------

  lemma {:induction false} RestoredUnbroken(s: Bytes)
    requires Unbroken(s)
    ensures Unbroken(RestoreSpaces(s))
    decreases |s|
  {
    if |s| >= 2 {
      assert s[0] in s;
      RestoredUnbroken(if s[0] == C2 && s[1] == A0 then s[2..] else s[1..]);
    }
  }

  lemma {:induction false} WordUnbroken(s: Bytes)
    ensures Unbroken(s[..WordLength(s)])
    decreases |s|
  {
    if s != [] && !IsGap(s[0]) && !IsBreak(s[0]) {
      WordUnbroken(s[1..]);
      assert s[..WordLength(s)] == [s[0]] + s[1..][..WordLength(s[1..])];
    }
  }

  lemma {:induction false} ReadWordsPlain(s: Bytes)
    requires s != [] ==> !IsGap(s[0])
    ensures AllPlain(ReadWords(s).forms)
    decreases |s|
  {
    if s != [] && !IsBreak(s[0]) {
      var w := s[..WordLength(s)];
      WordUnbroken(s);
      RestoredUnbroken(w);
      RestoredHasNone(w);
      ReadWordsPlain(SkipGap(s[|w|..]));
      assert ReadWords(s).forms[1..] == ReadWords(SkipGap(s[|w|..])).forms;
    }
  }

  predicate Readable(sentences: seq<seq<Bytes>>) {
    sentences == [] || (sentences[0] != [] && AllPlain(sentences[0]) && Readable(sentences[1..]))
  }

  lemma {:induction false} ReadAllReadable(text: Bytes)
    ensures Readable(ReadAll(text))
    decreases |text|
  {
    var line := Read(text);
    ReadWordsPlain(SkipBlank(text));
    if line.forms != [] {
      ReadAllReadable(line.rest);
      assert ReadAll(text)[1..] == ReadAll(line.rest);
    }
  }

  lemma {:induction false} ReadableCarried(items: seq<Item>)
    ensures Readable(FormsOf(items)) <==> Carried(items)
    decreases |items|
  {
    if items != [] {
      ReadableCarried(items[1..]);
      assert FormsOf(items)[1..] == FormsOf(items[1..]);
    }
  }

  /** The round trip, exactly: written sentences are read back if and only if each has a word and every form is
      non-empty and holds no tab, no line break and no no-break space; empty lines in between make no difference. */
  lemma {:induction false} RoundTripExactly(items: seq<Item>)
    ensures ReadAll(WriteAll(items)) == FormsOf(items) <==> Carried(items)
  {
    if Carried(items) { CarriedRead(items); }
    ReadAllReadable(WriteAll(items));
    ReadableCarried(items);
  }

  // ---------- the procedures ----------

  lemma {:induction false} NothingToRestore(s: Bytes)
    requires !HasNbsp(s)
    ensures RestoreSpaces(s) == s
    decreases |s|
  {
    if |s| >= 2 {
      assert !(s[0] == C2 && s[0 + 1] == A0);
      NbspTail(s);
      NothingToRestore(s[1..]);
      assert s == [s[0]] + s[1..];
    }
  }

  /** What is made so far and what is left give the restored word; a last C2 byte may still become a space. */
  ghost predicate Compacted(form: Bytes, tail: Bytes, word: Bytes) {
    if form != [] && form[|form| - 1] == C2
    then form[..|form| - 1] + RestoreSpaces([C2] + tail) == RestoreSpaces(word)
    else form + RestoreSpaces(tail) == RestoreSpaces(word)
  }

  lemma {:induction false} CompactStep(form: Bytes, tail: Bytes, word: Bytes)
    requires tail != [] && Compacted(form, tail, word)
    ensures if form != [] && form[|form| - 1] == C2 && tail[0] == A0
            then Compacted(form[..|form| - 1] + [SPACE], tail[1..], word)
            else Compacted(form + [tail[0]], tail[1..], word)
  {
    var c, later := tail[0], tail[1..];
    assert tail == [c] + later;
    RestoreFront(c, later);
    if form != [] && form[|form| - 1] == C2 {
      var done := form[..|form| - 1];
      assert form == done + [C2] && ([C2] + tail)[1..] == tail && ([C2] + tail)[2..] == later;
      if c == A0 {
        Assoc(done, [SPACE], RestoreSpaces(later));
      } else {
        Assoc(done, [C2], RestoreSpaces(tail));
        CompactPush(form, c, later, word);
      }
    } else {
      CompactPush(form, c, later, word);
    }
  }

  lemma {:induction false} RestoreFront(c: byte, later: Bytes)
    ensures c != C2 ==> RestoreSpaces([c] + later) == [c] + RestoreSpaces(later)
  {
    assert ([c] + later)[1..] == later;
    if later == [] { assert [c] + later == [c]; }
  }

  lemma {:induction false} CompactPush(form: Bytes, c: byte, later: Bytes, word: Bytes)
    requires form + RestoreSpaces([c] + later) == RestoreSpaces(word)
    ensures Compacted(form + [c], later, word)
  {
    RestoreFront(c, later);
    assert (form + [c])[..|form|] == form;
    Assoc(form, [c], RestoreSpaces(later));
  }

  class Reader {
    var text: Bytes

    constructor (text: Bytes)
      ensures this.text == text
    {
      this.text := text;
    }

    /** Reads one sentence. */
    method NextSentence() returns (forms: seq<Bytes>)
      modifies this
      ensures Line(forms, text) == Read(old(text))
    {
      while text != [] && (IsGap(text[0]) || IsBreak(text[0]))
        invariant SkipBlank(text) == SkipBlank(old(text))
        decreases |text|
      {
        text := text[1..];
      }
      forms := [];
      ghost var all := ReadWords(text);
      while text != [] && !IsBreak(text[0])
        invariant text != [] ==> !IsGap(text[0])
        invariant Line(forms + ReadWords(text).forms, ReadWords(text).rest) == all
        decreases |text|
      {
        ghost var next := ReadWords(SkipGap(text[WordLength(text)..])).forms;
        var word := SlurpWord();
        var form := CompactSpaces(word);
        SkipSpaces();
        Assoc(forms, [form], next);
        forms := forms + [form];
      }
      assert forms + [] == forms;
    }

    method SlurpWord() returns (word: Bytes)
      modifies this
      ensures var k := WordLength(old(text)); word == old(text)[..k] && text == old(text)[k..]
    {
      ghost var k := WordLength(text);
      word := [];
      while text != [] && !IsGap(text[0]) && !IsBreak(text[0])
        invariant |word| <= k && word == old(text)[..|word|] && text == old(text)[|word|..]
        invariant |word| + WordLength(text) == k
        decreases |text|
      {
        assert old(text)[..|word| + 1] == word + [text[0]];
        word, text := word + [text[0]], text[1..];
      }
    }

    /** The in-place loop that turns no-break spaces into spaces, entered only if there is one. */
    static method CompactSpaces(word: Bytes) returns (form: Bytes)
      ensures form == RestoreSpaces(word)
    {
      if !HasNbsp(word) {
        NothingToRestore(word);
        return word;
      }
      form := [];
      for i := 0 to |word|
        invariant Compacted(form, word[i..], word)
      {
        CompactStep(form, word[i..], word);
        assert word[i..][1..] == word[i + 1..];
        if form != [] && form[|form| - 1] == C2 && word[i] == A0 {
          form := form[..|form| - 1] + [SPACE];
        } else {
          form := form + [word[i]];
        }
      }
      assert form + [] == form && (form != [] ==> form == form[..|form| - 1] + [form[|form| - 1]]);
    }

    method SkipSpaces()
      modifies this
      ensures text == SkipGap(old(text))
    {
      while text != [] && IsGap(text[0])
        invariant SkipGap(text) == SkipGap(old(text))
        decreases |text|
      {
        text := text[1..];
      }
    }
  }

  /** Writes the line of one sentence. */
  method WriteLine(forms: seq<Bytes>) returns (line: Bytes)
    ensures line == WriteWords(forms) + [LF]
  {
    line := [];
    for i := 0 to |forms|
      invariant line + WriteWords(forms[i..]) == WriteWords(forms)
    {
      ghost var before, rest := line, forms[i..];
      assert rest[0] == forms[i] && rest[1..] == forms[i + 1..];
      var form := forms[i];
      line := AppendForm(line, form);
      if i + 1 < |forms| {
        Assoc(before, NormalizeLemma(form), [SPACE]);
        Assoc(before, NormalizeLemma(form) + [SPACE], WriteWords(rest[1..]));
        line := line + [SPACE];
      }
    }
    assert line + [] == line;
    line := line + [LF];
  }

  /** The loop over the bytes of a form. */
  method AppendForm(line: Bytes, form: Bytes) returns (r: Bytes)
    ensures r == line + NormalizeLemma(form)
  {
    r := line;
    for k := 0 to |form|
      invariant r + NormalizeLemma(form[k..]) == line + NormalizeLemma(form)
    {
      assert form[k..][1..] == form[k + 1..];
      var out := if form[k] == SPACE then Encode(0xA0) else [form[k]];
      Assoc(r, out, NormalizeLemma(form[k + 1..]));
      r := r + out;
    }
    assert r + [] == r;
  }
}
