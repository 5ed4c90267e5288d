/** The tokenizer wrapper and the plaintext writer at work, proved against LosslessText. */
module LosslessTokenizer {
  import opened Sentences
  import opened Sequences
  import opened Tokens
  import opened LosslessText
  import M = MiscFields

  // The wrapper of src/tokenizer/morphodita_tokenizer_wrapper.cpp:39-174 as the state machine it is, and the writer of
  // src/sentence/output_format.cpp:326-337. The inner tokenizer is what the script says it will return: any ordered,
  // disjoint slices of the text.

  // ---------- tokens and what is written of them ----------

  /** A token as the registers of its MISC string show it. */
  datatype Spaced = Spaced(form: string, before: string, inToken: string, after: string)
  {
    function Shown(): string { before + (if inToken != "" then inToken else form) + after }
  }

  function SpacedOf(form: string, misc: string): Spaced {
    Spaced(form, M.SpacesOf(misc, M.SPACES_BEFORE), M.SpacesOf(misc, M.SPACES_IN_TOKEN), M.SpacesAfter(misc))
  }

  function AllSpaced(ts: seq<Surface>): (r: seq<Spaced>)
    ensures |r| == |ts|
  {
    if ts == [] then [] else [SpacedOf(ts[0].form, ts[0].misc)] + AllSpaced(ts[1..])
  }

  lemma {:induction false} AllSpacedAppend(ts: seq<Surface>, t: Surface)
    ensures AllSpaced(ts + [t]) == AllSpaced(ts) + [SpacedOf(t.form, t.misc)]
    decreases |ts|
  {
    if ts == [] {
      assert ts + [t] == [t];
    } else {
      assert (ts + [t])[1..] == ts[1..] + [t];
      AllSpacedAppend(ts[1..], t);
    }
  }

  function Render(ts: seq<Spaced>): string {
    if ts == [] then "" else ts[0].Shown() + Render(ts[1..])
  }

  /** The tokens of a sentence: each form squeezed, the raw text kept if that shortened it, and all spacing on both
      sides; `before` stands before the first one. */
  function Expected(zs: set<char>, source: string, forms: seq<Slice>, from: nat, before: string): (r: seq<Spaced>)
    requires forms != [] && Ordered(source, forms, from) && from <= |source|
    ensures |r| == |forms|
    decreases |forms|
  {
    var raw := Raw(source, forms[0]);
    [Spaced(Squeeze(raw, false), before, KeptRaw(raw), AfterFirst(zs, source, forms, from))] +
    if |forms| == 1 then [] else Expected(zs, source, forms[1..], forms[0].end, "")
  }

  /** The k-th token, by itself: its own form, the raw text where the form is shorter, no spaces in front but for the
      first, and behind it the text up to the next one or the spacing up to the new cursor. */
  lemma {:induction false} ExpectedAt(zs: set<char>, source: string, forms: seq<Slice>, from: nat, before: string,
      k: nat)
    requires forms != [] && Ordered(source, forms, from) && from <= |source| && k < |forms|
    ensures forms[k].start <= forms[k].end <= |source|
    ensures var t, raw := Expected(zs, source, forms, from, before)[k], Raw(source, forms[k]);
            && t.form == Squeeze(raw, false) && t.inToken == (if |t.form| == |raw| then "" else raw)
            && t.before == if k == 0 then before else ""
    ensures var t := Expected(zs, source, forms, from, before)[k];
            if k + 1 < |forms|
            then forms[k].end <= forms[k + 1].start <= |source| && t.after == source[forms[k].end..forms[k + 1].start]
            else forms[k].end <= NextPos(zs, source, forms, from) <= |source|
                 && t.after == source[forms[k].end..NextPos(zs, source, forms, from)]
    decreases |forms|
  {
    if k > 0 {
      var rest := forms[1..];
      assert LastEnd(rest, forms[0].end) == LastEnd(forms, from);
      ExpectedAt(zs, source, rest, forms[0].end, "", k - 1);
      assert rest[k - 1] == forms[k] && (k + 1 < |forms| ==> rest[k] == forms[k + 1]);
    }
  }

  function KeptRaw(raw: string): string {
    if |Squeeze(raw, false)| != |raw| then raw else ""
  }

  function AfterFirst(zs: set<char>, source: string, forms: seq<Slice>, from: nat): string
    requires forms != [] && Ordered(source, forms, from) && from <= |source|
  {
    if |forms| == 1 then source[forms[0].end..NextPos(zs, source, forms, from)]
    else
      assert Ordered(source, forms[1..], forms[0].end) && forms[1..][0] == forms[1];
      source[forms[0].end..forms[1].start]
  }

  /** The forms after the first. */
  lemma {:induction false} RestOrdered(source: string, forms: seq<Slice>, from: nat)
    requires |forms| > 1 && Ordered(source, forms, from)
    ensures forms[0].end <= |source| && Ordered(source, forms[1..], forms[0].end)
    ensures forms[1..][0] == forms[1] && LastEnd(forms[1..], forms[0].end) == LastEnd(forms, from)
  {
  }

  lemma {:induction false} ShownFirst(raw: string, before: string, after: string)
    ensures Spaced(Squeeze(raw, false), before, KeptRaw(raw), after).Shown() ==
            before + (LosslessText.Shown(raw) + after)
  {
    Assoc(before, LosslessText.Shown(raw), after);
  }

  /** Written out, the tokens are the body of the sentence. */
  lemma {:induction false} ExpectedRenders(zs: set<char>, source: string, forms: seq<Slice>, from: nat, before: string)
    requires forms != [] && Ordered(source, forms, from) && from <= |source|
    ensures Render(Expected(zs, source, forms, from, before)) == before + Body(zs, source, forms, from)
    decreases |forms|
  {
    var raw, after := Raw(source, forms[0]), AfterFirst(zs, source, forms, from);
    var head := Spaced(Squeeze(raw, false), before, KeptRaw(raw), after);
    ShownFirst(raw, before, after);
    var x := LosslessText.Shown(raw) + after;
    if |forms| == 1 {
      RenderCons(head, []);
      assert before + x + "" == before + x;
    } else {
      RestOrdered(source, forms, from);
      var rest := forms[1..];
      ExpectedRenders(zs, source, rest, forms[0].end, "");
      var z := Body(zs, source, rest, forms[0].end);
      RenderCons(head, Expected(zs, source, rest, forms[0].end, ""));
      assert "" + z == z;
      Assoc(before, x, z);
    }
  }

  /** The tokens still to come; the first one carries the spaces before. */
  function ToCome(zs: set<char>, source: string, forms: seq<Slice>, from: nat, before: string): seq<Spaced>
    requires Ordered(source, forms, from) && from <= |source|
  {
    if forms == [] then [] else Expected(zs, source, forms, from, before)
  }

  /** The first token to come, and the others. */
  lemma {:induction false} ToComeStep(zs: set<char>, source: string, forms: seq<Slice>, from: nat, before: string)
    requires forms != [] && Ordered(source, forms, from) && from <= |source|
    ensures forms[0].start <= forms[0].end <= |source| && Ordered(source, forms[1..], forms[0].end)
    ensures |forms| > 1 ==> forms[1..][0] == forms[1] && forms[0].end <= forms[1].start <= |source|
    ensures |forms| > 1 ==> LastEnd(forms[1..], forms[0].end) == LastEnd(forms, from)
    ensures var raw := Raw(source, forms[0]);
            ToCome(zs, source, forms, from, before) ==
            [Spaced(Squeeze(raw, false), before, KeptRaw(raw), AfterFirst(zs, source, forms, from))]
            + ToCome(zs, source, forms[1..], forms[0].end, "")
  {
  }

  /** The tokens made so far and those still to come are all tokens of the sentence. */
  ghost predicate Covers(zs: set<char>, source: string, rest: seq<Slice>, at: nat, before: string,
                         done: seq<Spaced>, all: seq<Spaced>, last: nat)
  {
    && at <= |source| && Ordered(source, rest, at) && last <= |source| && LastEnd(rest, at) == last
    && done + ToCome(zs, source, rest, at, before) == all
  }

  lemma {:induction false} CoversBounds(zs: set<char>, source: string, rest: seq<Slice>, at: nat, before: string,
                     done: seq<Spaced>, all: seq<Spaced>, last: nat)
    requires rest != [] && Covers(zs, source, rest, at, before, done, all, last)
    ensures rest[0].start <= rest[0].end <= |source|
    ensures if |rest| > 1 then rest[0].end <= rest[1].start <= |source| else rest[0].end == last
  {
    ToComeStep(zs, source, rest, at, before);
  }

  lemma {:induction false} CoversStep(zs: set<char>, source: string, rest: seq<Slice>, at: nat, before: string,
                   done: seq<Spaced>, all: seq<Spaced>, last: nat, head: Spaced)
    requires rest != [] && Covers(zs, source, rest, at, before, done, all, last)
    requires rest[0].start <= rest[0].end <= |source|
    requires var raw := Raw(source, rest[0]);
             head == Spaced(Squeeze(raw, false), before, KeptRaw(raw), AfterFirst(zs, source, rest, at))
    ensures Covers(zs, source, rest[1..], rest[0].end, "", done + [head], all, last)
  {
    ToComeStep(zs, source, rest, at, before);
    Assoc(done, [head], ToCome(zs, source, rest[1..], rest[0].end, ""));
  }

  lemma {:induction false} CoversStart(zs: set<char>, source: string, forms: seq<Slice>, at: nat, before: string)
    requires forms != [] && Ordered(source, forms, at) && at <= |source|
    ensures Covers(zs, source, forms, at, before, [], Expected(zs, source, forms, at, before), LastEnd(forms, at))
  {
    OrderedEnd(source, forms, at);
    assert [] + Expected(zs, source, forms, at, before) == Expected(zs, source, forms, at, before);
  }

  lemma {:induction false} CoversEnd(zs: set<char>, source: string, at: nat, before: string, done: seq<Spaced>,
      all: seq<Spaced>, last: nat)
    requires Covers(zs, source, [], at, before, done, all, last)
    ensures done == all
  {
    assert done + [] == done;
  }

  lemma {:induction false} RenderCons(t: Spaced, ts: seq<Spaced>)
    ensures Render([t] + ts) == t.Shown() + Render(ts)
  {
    assert ([t] + ts)[1..] == ts;
  }

  // ---------- the next sentence of the inner tokenizer ----------

  /** The first sentence with a token in it, and where the inner tokenizer stands around it. */
  datatype Found = Found(forms: seq<Slice>, at: nat, script: seq<seq<Slice>>, from: nat)

  function NextFound(source: string, script: seq<seq<Slice>>, from: nat): (r: Option<Found>)
    requires from <= |source| && OrderedScript(source, script, from)
    ensures r.Some? ==>
              var f := r.value;
              && f.forms != [] && f.at <= |source| && Ordered(source, f.forms, f.at)
              && |f.script| < |script| && f.from <= |source| && OrderedScript(source, f.script, f.from)
    decreases |script|
  {
    if script == [] then None
    else
      var forms, last := Clean(source, script[0], from), LastEnd(script[0], from);
      OrderedEnd(source, script[0], from);
      if forms == [] then NextFound(source, script[1..], last) else Some(Found(forms, from, script[1..], last))
  }

  /** What remains to be written, one sentence further. */
  lemma {:induction false} WriteNext(zs: set<char>, source: string, pos: nat, script: seq<seq<Slice>>, from: nat,
      saved: string)
    requires pos <= |source| && from <= |source| && OrderedScript(source, script, from)
    ensures var w := WriteText(zs, source, pos, script, from, saved);
            match NextFound(source, script, from)
            case None => w == Written("", saved + source[pos..])
            case Some(f) =>
              var rest := WriteText(zs, source, NextPos(zs, source, f.forms, f.at), f.script, f.from, "");
              w == Written(saved + Gap(source, pos, f.forms[0].start) + Body(zs, source, f.forms, f.at) + rest.out,
                           rest.saved)
    decreases |script|
  {
    if script != [] && Clean(source, script[0], from) == [] {
      OrderedEnd(source, script[0], from);
      WriteNext(zs, source, pos, script[1..], LastEnd(script[0], from), saved);
    }
  }

  // ---------- appending to a sentence ----------

  /** The multiword tokens before the j-th one end before word i, the others start at it or later. */
  ghost predicate Passed(mwts: seq<MultiwordToken>, i: nat, j: nat) {
    j <= |mwts| && (j < |mwts| ==> mwts[j].idFirst >= i)
  }

  /** Words added at the end, plain or under one multiword token, are one more token at the end. */
  lemma {:induction false} SurfaceAppend(words: seq<Word>, mwts: seq<MultiwordToken>, more: seq<Word>,
      range: seq<MultiwordToken>, i: nat, j: nat)
    requires OrderedRanges(|words|, mwts) && i <= |words| && Passed(mwts, i, j) && |words| > 0
    requires more != [] && |range| <= 1 && (range == [] ==> |more| == 1)
    requires range != [] ==> range[0].idFirst == |words| && range[0].idLast == |words| + |more| - 1
    ensures OrderedRanges(|words + more|, mwts + range)
    ensures SurfaceFrom(words + more, mwts + range, i, j) ==
            SurfaceFrom(words, mwts, i, j) + [SurfaceAt(words + more, mwts + range, |words|, |mwts|)]
    decreases |words| - i
  {
    RangesAppend(words, mwts, more, range);
    AppendedFrom(words, mwts, more, range, i, j);
  }

  lemma {:induction false} AppendedFrom(words: seq<Word>, mwts: seq<MultiwordToken>, more: seq<Word>,
      range: seq<MultiwordToken>, i: nat, j: nat)
    requires OrderedRanges(|words|, mwts) && OrderedRanges(|words + more|, mwts + range)
    requires i <= |words| && Passed(mwts, i, j) && more != [] && |range| <= 1
    requires SurfaceAt(words + more, mwts + range, |words|, |mwts|).last + 1 == |words + more|
    requires range != [] ==> range[0].idFirst == |words|
    ensures SurfaceFrom(words + more, mwts + range, i, j) ==
            SurfaceFrom(words, mwts, i, j) + [SurfaceAt(words + more, mwts + range, |words|, |mwts|)]
    decreases |words| - i, 1
  {
    if i == |words| {
      AppendedAtEnd(words, mwts, more, range, j);
    } else {
      AppendedAfter(words, mwts, more, range, i, j);
    }
  }

  lemma {:induction false} AppendedAfter(words: seq<Word>, mwts: seq<MultiwordToken>, more: seq<Word>,
      range: seq<MultiwordToken>, i: nat, j: nat)
    requires OrderedRanges(|words|, mwts) && OrderedRanges(|words + more|, mwts + range)
    requires i < |words| && Passed(mwts, i, j) && more != [] && |range| <= 1
    requires SurfaceAt(words + more, mwts + range, |words|, |mwts|).last + 1 == |words + more|
    requires range != [] ==> range[0].idFirst == |words|
    ensures SurfaceFrom(words + more, mwts + range, i, j) ==
            SurfaceFrom(words, mwts, i, j) + [SurfaceAt(words + more, mwts + range, |words|, |mwts|)]
    decreases |words| - i, 0
  {
    var t := SurfaceAt(words, mwts, i, j);
    SameSurface(words, mwts, more, range, i, j);
    AppendedFrom(words, mwts, more, range, t.last + 1, if t.isMultiword then j + 1 else j);
    AppendedBefore(words, mwts, more, range, i, j, SurfaceAt(words + more, mwts + range, |words|, |mwts|));
  }

  lemma {:induction false} AppendedAtEnd(words: seq<Word>, mwts: seq<MultiwordToken>, more: seq<Word>,
      range: seq<MultiwordToken>, j: nat)
    requires OrderedRanges(|words|, mwts) && OrderedRanges(|words + more|, mwts + range)
    requires Passed(mwts, |words|, j) && more != []
    requires SurfaceAt(words + more, mwts + range, |words|, |mwts|).last + 1 == |words + more|
    ensures SurfaceFrom(words + more, mwts + range, |words|, j) ==
            SurfaceFrom(words, mwts, |words|, j) + [SurfaceAt(words + more, mwts + range, |words|, |mwts|)]
  {
    AllPassed(mwts, |words|, j);
    LastSurface(words + more, mwts + range, |words|, j);
  }

  lemma {:induction false} AllPassed(mwts: seq<MultiwordToken>, n: nat, j: nat)
    requires OrderedRanges(n, mwts) && Passed(mwts, n, j)
    ensures j == |mwts|
  {
  }

  /** A token before the end, with what holds of the tokens after it. */
  lemma {:induction false} AppendedBefore(words: seq<Word>, mwts: seq<MultiwordToken>, more: seq<Word>,
      range: seq<MultiwordToken>, i: nat, j: nat, last: Surface)
    requires OrderedRanges(|words|, mwts) && OrderedRanges(|words + more|, mwts + range) && i < |words|
    requires SurfaceAt(words + more, mwts + range, i, j) == SurfaceAt(words, mwts, i, j)
    requires var t := SurfaceAt(words, mwts, i, j);
             var j' := if t.isMultiword then j + 1 else j;
             SurfaceFrom(words + more, mwts + range, t.last + 1, j') ==
             SurfaceFrom(words, mwts, t.last + 1, j') + [last]
    ensures SurfaceFrom(words + more, mwts + range, i, j) == SurfaceFrom(words, mwts, i, j) + [last]
  {
    var t := SurfaceAt(words, mwts, i, j);
    SurfaceCons(words, mwts, i, j);
    SurfaceCons(words + more, mwts + range, i, j);
    Assoc([t], SurfaceFrom(words, mwts, t.last + 1, if t.isMultiword then j + 1 else j), [last]);
  }

  lemma {:induction false} SurfaceCons(words: seq<Word>, mwts: seq<MultiwordToken>, i: nat, j: nat)
    requires OrderedRanges(|words|, mwts) && i < |words|
    ensures var t := SurfaceAt(words, mwts, i, j);
            SurfaceFrom(words, mwts, i, j) ==
            [t] + SurfaceFrom(words, mwts, t.last + 1, if t.isMultiword then j + 1 else j)
  {
  }

  /** What is added at the end changes no token before, and the walk passes it as before. */
  lemma {:induction false} SameSurface(words: seq<Word>, mwts: seq<MultiwordToken>, more: seq<Word>,
      range: seq<MultiwordToken>, i: nat, j: nat)
    requires OrderedRanges(|words|, mwts) && i < |words| && Passed(mwts, i, j)
    requires OrderedRanges(|words + more|, mwts + range) && |range| <= 1 &&
             (range != [] ==> range[0].idFirst == |words|)
    ensures var t := SurfaceAt(words, mwts, i, j);
            && i <= t.last < |words| && SurfaceAt(words + more, mwts + range, i, j) == t
            && Passed(mwts, t.last + 1, if t.isMultiword then j + 1 else j)
  {
  }

  lemma {:induction false} LastSurface(words: seq<Word>, mwts: seq<MultiwordToken>, i: nat, j: nat)
    requires OrderedRanges(|words|, mwts) && i < |words| && SurfaceAt(words, mwts, i, j).last + 1 == |words|
    ensures SurfaceFrom(words, mwts, i, j) == [] + [SurfaceAt(words, mwts, i, j)]
  {
    SurfaceStep(words, mwts, i, j);
  }

  lemma {:induction false} RangesAppend(words: seq<Word>, mwts: seq<MultiwordToken>, more: seq<Word>,
      range: seq<MultiwordToken>)
    requires OrderedRanges(|words|, mwts) && |words| > 0
    requires more != [] && |range| <= 1
    requires range != [] ==> range[0].idFirst == |words| && range[0].idLast == |words| + |more| - 1
    ensures OrderedRanges(|words + more|, mwts + range)
  {
    var ms := mwts + range;
    forall j {:trigger ms[j]} | 0 <= j < |ms| ensures 1 <= ms[j].idFirst <= ms[j].idLast < |words + more| {
      if j < |mwts| { assert ms[j] == mwts[j]; } else { assert ms[j] == range[0]; }
    }
    forall j, k {:trigger ms[j], ms[k]} | 0 <= j < k < |ms| ensures ms[j].idLast < ms[k].idFirst {
      assert ms[j] == mwts[j];
      if k < |mwts| { assert ms[k] == mwts[k]; } else { assert ms[k] == range[0]; }
    }
  }

  /** The optional multiword splitter: the words of a form, none when no rule applies. */
  datatype Splitter = NoSplitter | Splitter(split: string -> seq<string>)
  {
    function Words(form: string): seq<string> { if NoSplitter? then [] else split(form) }
  }

  ghost predicate WellShaped(s: Sentence)
    reads s
  {
    |s.words| > 0 && OrderedRanges(|s.words|, s.multiwordTokens)
  }

  ghost function TokensOf(s: Sentence): seq<Surface>
    requires WellShaped(s)
    reads s
  {
    SurfaceFrom(s.words, s.multiwordTokens, 1, 0)
  }

  /** Appends a token as a word, or split into words under a multiword token; the MISC goes to the one that stands in
      the text. */
  method AppendToken(splitter: Splitter, form: string, misc: string, s: Sentence)
    requires WellShaped(s)
    modifies s
    ensures WellShaped(s)
    ensures AllSpaced(TokensOf(s)) == AllSpaced(old(TokensOf(s))) + [SpacedOf(form, misc)]
    ensures s.emptyNodes == old(s.emptyNodes) && s.comments == old(s.comments)
  {
    var split := splitter.Words(form);
    ghost var words, mwts := s.words, s.multiwordTokens;
    var n := |s.words|;
    if split == [] {
      s.AddWord(form);
      s.words := s.words[n := s.words[n].(misc := misc)];
      ghost var w := NewWord(n, form).(misc := misc);
      assert s.words == words + [w] && s.multiwordTokens == mwts + [];
      SurfaceAppend(words, mwts, [w], [], 1, 0);
    } else {
      var range := MultiwordToken(n, n + |split| - 1, form, "", misc);
      s.multiwordTokens := s.multiwordTokens + [range];
      AddWords(split, s);
      ghost var more := s.words[n..];
      assert s.words == words + more;
      SurfaceAppend(words, mwts, more, [range], 1, 0);
    }
    AllSpacedAppend(old(TokensOf(s)), SurfaceAt(s.words, s.multiwordTokens, n, |mwts|));
  }

  method AddWords(forms: seq<string>, s: Sentence)
    modifies s`words
    ensures |s.words| == |old(s.words)| + |forms| && s.words[..|old(s.words)|] == old(s.words)
    ensures forall k | 0 <= k < |forms| :: s.words[|old(s.words)| + k].form == forms[k]
  {
    ghost var n := |s.words|;
    for i := 0 to |forms|
      invariant |s.words| == n + i && s.words[..n] == old(s.words)
      invariant forall k | 0 <= k < i :: s.words[n + k].form == forms[k]
    {
      s.AddWord(forms[i]);
    }
  }

  // ---------- the wrapper ----------

  /** The forms before the i-th one are trimmed, `rest` are the others, and together they make up all of them. */
  ghost predicate Trimmed(source: string, forms: seq<Slice>, i: nat, rest: seq<Slice>, at: nat, all: seq<Slice>) {
    i <= |forms| && forms[i..] == rest && Ordered(source, rest, at) && forms[..i] + Clean(source, rest, at) == all
  }

  lemma {:induction false} TrimmedStep(source: string, forms: seq<Slice>, i: nat, rest: seq<Slice>, at: nat,
      all: seq<Slice>, f: Slice)
    requires i < |forms| && Trimmed(source, forms, i, rest, at, all) && rest[0] == forms[i]
    requires f == TrimRight(source, TrimLeft(source, forms[i]))
    ensures if f.start == f.end
            then Trimmed(source, forms[..i] + forms[i + 1..], i, rest[1..], rest[0].end, all)
            else Trimmed(source, forms[i := f], i + 1, rest[1..], rest[0].end, all)
  {
    var later := Clean(source, rest[1..], rest[0].end);
    if f.start == f.end {
      assert (forms[..i] + forms[i + 1..])[..i] == forms[..i];
      assert (forms[..i] + forms[i + 1..])[i..] == rest[1..];
    } else {
      Assoc(forms[..i], [f], later);
      assert forms[i := f][..i + 1] == forms[..i] + [f];
      assert forms[i := f][i + 1..] == rest[1..];
    }
  }

  class Wrapper {
    const zs: set<char>
    const splitter: Splitter
    const tok: Token

    var source: string             // the text that was set, its leading spacing taken off
    var pos: nat                   // where the unread part of it starts
    var saved: string              // the spaces carried over sentences and texts
    var script: seq<seq<Slice>>    // what the inner tokenizer will still return
    var from: nat                  // where its last sentence ended

    ghost predicate Valid()
      reads this
    {
      pos <= |source| && from <= |source| && OrderedScript(source, script, from)
    }

    /** What is still to be written of the text, and what will be saved after it. */
    ghost function Remaining(): Written
      requires Valid()
      reads this
    {
      WriteText(zs, source, pos, script, from, saved)
    }

    constructor (zs: set<char>, splitter: Splitter)
      ensures Valid() && saved == "" && script == []
      ensures this.zs == zs && this.splitter == splitter && fresh(tok)
    {
      this.zs, this.splitter := zs, splitter;
      tok := new Token("", "");
      source, pos, saved, script, from := "", 0, "", [], 0;
    }

    /** Sets the next text; its leading spacing goes to the saved spaces. */
    method SetText(b: Block)
      requires BlockOk(zs, b)
      modifies this
      ensures Valid()
      ensures source == Source(zs, b) && pos == 0 && script == b.script && from == 0
      ensures Remaining() == WriteBlock(zs, b, old(saved))
    {
      var text := b.text;
      ghost var n := SpacingLength(zs, b.text);
      var k := 0;
      while text != "" && IsSpacing(zs, text[0])
        invariant k <= n && text == b.text[k..] && SpacingLength(zs, text) == n - k
        invariant saved == old(saved) + b.text[..k]
        decreases |text|
      {
        assert b.text[..k + 1] == b.text[..k] + [text[0]];
        Assoc(old(saved), b.text[..k], [text[0]]);
        assert text[1..] == b.text[k + 1..];
        saved, text, k := saved + [text[0]], text[1..], k + 1;
      }
      source, pos, script, from := text, 0, b.script, 0;
    }

    /** Starts a new document: whatever was unread or saved is dropped. */
    method ResetDocument()
      modifies this
      ensures Valid() && Remaining() == Written("", "")
    {
      SetText(Block("", []));
      assert source == "" && script == [];
      saved := "";
      assert "" + source[0..] == "";
    }

    /** Takes the spacing after the cursor into the saved spaces. */
    method TakeSpacing()
      requires Valid() && saved == ""
      modifies this`pos, this`saved
      ensures pos == old(pos) + SpacingLength(zs, source[old(pos)..]) && pos <= |source|
      ensures saved == source[old(pos)..pos]
    {
      ghost var n := SpacingLength(zs, source[pos..]);
      while pos < |source| && IsSpacing(zs, source[pos])
        invariant old(pos) <= pos <= |source|
        invariant pos + SpacingLength(zs, source[pos..]) == old(pos) + n
        invariant saved == source[old(pos)..pos]
        decreases |source| - pos
      {
        assert source[pos..][1..] == source[pos + 1..];
        saved := saved + [source[pos]];
        pos := pos + 1;
      }
    }

    /** The trimming loop, which drops what becomes empty. */
    static method TrimForms(source: string, raw: seq<Slice>, from: nat) returns (forms: seq<Slice>)
      requires Ordered(source, raw, from)
      ensures forms == Clean(source, raw, from)
    {
      forms := raw;
      ghost var at, rest, all := from, raw, Clean(source, raw, from);
      var i := 0;
      while i < |forms|
        invariant 0 <= i <= |forms| && Trimmed(source, forms, i, rest, at, all)
        decreases |forms| - i
      {
        var f := TrimForm(source, forms[i]);
        TrimmedStep(source, forms, i, rest, at, all, f);
        at, rest := rest[0].end, rest[1..];
        if f.start == f.end {
          forms := forms[..i] + forms[i + 1..];
        } else {
          forms := forms[i := f];
          i := i + 1;
        }
      }
      assert forms[..i] == forms && forms + [] == forms;
    }

    static method TrimForm(source: string, raw: Slice) returns (f: Slice)
      requires raw.start <= raw.end <= |source|
      ensures f == TrimRight(source, TrimLeft(source, raw))
    {
      f := raw;
      while f.start < f.end && IsBlank(source[f.start])
        invariant f.start <= f.end <= |source| && TrimLeft(source, f) == TrimLeft(source, raw)
        decreases f.end - f.start
      {
        f := f.(start := f.start + 1);
      }
      while f.start < f.end && IsBlank(source[f.end - 1])
        invariant f.start <= f.end <= |source| && TrimRight(source, f) == TrimRight(source, TrimLeft(source, raw))
        decreases f.end - f.start
      {
        f := f.(end := f.end - 1);
      }
    }

    /** The loop over the characters of a form. */
    static method MakeForm(raw: string) returns (form: string)
      ensures form == Squeeze(raw, false)
    {
      form := "";
      for j := 0 to |raw|
        invariant form + Squeeze(raw[j..], form != "" && form[|form| - 1] == ' ') == Squeeze(raw, false)
      {
        var chr := raw[j];
        if chr == '\r' || chr == '\n' || chr == '\t' { chr := ' '; }
        assert raw[j..][1..] == raw[j + 1..] && raw[j..][0] == raw[j];
        if chr != ' ' || form == "" || form[|form| - 1] != ' ' {
          Assoc(form, [chr], Squeeze(raw[j + 1..], chr == ' '));
          form := form + [chr];
        }
      }
      assert form + "" == form;
    }

    /** Stores form and spaces in the token, whose MISC string is the one of the token before. */
    method SetSpaces(form: string, before: string, inToken: string, after: string)
      modifies tok
      ensures tok.form == form && SpacedOf(form, tok.misc) == Spaced(form, before, inToken, after)
    {
      tok.form := form;
      M.ApplyUpdates(tok.misc, M.SetSpacesBefore(before));
      tok.SetSpaces(M.SPACES_BEFORE, before);
      M.ApplyUpdates(tok.misc, M.SetSpacesInToken(inToken));
      tok.SetSpaces(M.SPACES_IN_TOKEN, inToken);
      M.ApplyUpdates(tok.misc, M.SetSpacesAfter(after));
      tok.SetSpacesAfter(after);
      AfterReads(tok.misc);
    }

    /** Reads the next sentence that has a token. Its tokens carry exactly the text between the cursor and the new
        cursor, and what remains to be written is one sentence less; without one, all unread text is saved. */
    method NextSentence(s: Sentence) returns (ok: bool)
      requires Valid()
      modifies this, tok, s
      ensures Valid() && source == old(source)
      ensures ok <==> NextFound(source, old(script), old(from)).Some?
      ensures WellShaped(s)
      ensures ok ==>
                var f := NextFound(source, old(script), old(from)).value;
                && AllSpaced(TokensOf(s)) ==
                   Expected(zs, source, f.forms, f.at, old(saved) + Gap(source, old(pos), f.forms[0].start))
                && pos == NextPos(zs, source, f.forms, f.at) && saved == ""
                && script == f.script && from == f.from
      ensures !ok ==> pos == |source| && script == [] && saved == old(saved) + source[old(pos)..]
      decreases |script|
    {
      s.Clear();
      if script == [] {
        saved, pos := saved + source[pos..], |source|;
        return false;
      }
      var at := from;
      var forms := TrimForms(source, script[0], from);
      OrderedEnd(source, script[0], from);
      from, script := LastEnd(script[0], from), script[1..];
      if forms == [] {
        ok := NextSentence(s);
        return;
      }
      ReadForms(forms, at, s);
      return true;
    }

    /** The loop over the forms of a sentence. */
    method ReadForms(forms: seq<Slice>, at: nat, s: Sentence)
      requires Valid() && forms != [] && at <= |source| && Ordered(source, forms, at)
      requires s.words == [ROOT] && s.multiwordTokens == []
      modifies this`pos, this`saved, tok, s
      ensures Valid() && WellShaped(s)
      ensures AllSpaced(TokensOf(s)) ==
              Expected(zs, source, forms, at, old(saved) + Gap(source, old(pos), forms[0].start))
      ensures pos == NextPos(zs, source, forms, at) && saved == ""
    {
      ghost var before := saved + Gap(source, pos, forms[0].start);
      ghost var all, last, rest := Expected(zs, source, forms, at, before), LastEnd(forms, at), forms;
      ghost var from: nat, front := at, before;
      CoversStart(zs, source, forms, at, before);
      OrderedEnd(source, forms, at);
      assert AllSpaced(TokensOf(s)) == [];
      for i := 0 to |forms|
        invariant WellShaped(s) && rest == forms[i..] && pos <= |source|
        invariant Covers(zs, source, rest, from, front, AllSpaced(TokensOf(s)), all, last)
        invariant front == if i == 0 then before else ""
        invariant if i == 0 then pos == old(pos) && saved == old(saved) else saved == ""
        invariant i == |forms| ==> pos == last + SpacingLength(zs, source[last..])
      {
        assert rest[0] == forms[i] && (i + 1 < |forms| ==> rest[1] == forms[i + 1]) && rest[1..] == forms[i + 1..];
        ReadToken(forms[i], if i + 1 < |forms| then Some(forms[i + 1].start) else None, i == 0, s,
                  rest, from, front, all, last);
        rest, from, front := rest[1..], rest[0].end, "";
      }
      CoversEnd(zs, source, from, front, AllSpaced(TokensOf(s)), all, last);
    }

    /** The body of the loop: one form becomes one token. */
    method ReadToken(f: Slice, next: Option<nat>, isFirst: bool, s: Sentence,
                     ghost rest: seq<Slice>, ghost at: nat, ghost before: string, ghost all: seq<Spaced>,
                     ghost last: nat)
      requires Valid() && WellShaped(s) && rest != []
      requires Covers(zs, source, rest, at, before, AllSpaced(TokensOf(s)), all, last)
      requires f == rest[0] && next == (if |rest| > 1 then Some(rest[1].start) else None)
      requires before == if isFirst then saved + Gap(source, pos, f.start) else ""
      modifies this`pos, this`saved, tok, s
      ensures WellShaped(s) && pos <= |source| && saved == ""
      ensures Covers(zs, source, rest[1..], rest[0].end, "", AllSpaced(TokensOf(s)), all, last)
      ensures pos == if |rest| > 1 then old(pos) else last + SpacingLength(zs, source[last..])
    {
      ghost var done := AllSpaced(TokensOf(s));
      CoversBounds(zs, source, rest, at, before, done, all, last);
      ReadForm(f, next, isFirst);
      ghost var head := SpacedOf(tok.form, tok.misc);
      CoversStep(zs, source, rest, at, before, done, all, last, head);
      AppendToken(splitter, tok.form, tok.misc, s);
    }

    /** One form: its spaces before if it is the first, its spaces after up to the next form or through the spacing. */
    method ReadForm(f: Slice, next: Option<nat>, isFirst: bool)
      requires Valid() && f.start <= f.end <= |source|
      requires next.Some? ==> f.end <= next.value <= |source|
      modifies this`pos, this`saved, tok
      ensures pos <= |source| && saved == ""
      ensures pos == if next.Some? then old(pos) else f.end + SpacingLength(zs, source[f.end..])
      ensures var raw := Raw(source, f);
              SpacedOf(tok.form, tok.misc) ==
              Spaced(Squeeze(raw, false), if isFirst then old(saved) + Gap(source, old(pos), f.start) else "",
                     KeptRaw(raw), source[f.end..if next.Some? then next.value else pos])
    {
      var raw := source[f.start..f.end];
      var form := MakeForm(raw);
      var before := "";
      if isFirst {
        if f.start > pos { saved := saved + source[pos..f.start]; } else { assert saved + "" == saved; }
        before := saved;
      }
      saved := "";
      var after;
      if next.None? {
        pos := f.end;
        TakeSpacing();
        after := saved;
      } else {
        after := source[f.end..next.value];
      }
      saved := "";
      SetSpaces(form, before, if |form| != |raw| then raw else "", after);
    }
  }

  /** The getter of the spaces after, in terms of the registers. */
  lemma {:induction false} AfterReads(misc: string)
    ensures M.SpacesAfter(misc) == M.Read(misc).After()
  {
  }

  // ---------- the plaintext writer ----------

  /** The text of the tokens from word i on. */
  ghost function Rendered(words: seq<Word>, mwts: seq<MultiwordToken>, i: nat, j: nat): string
    requires OrderedRanges(|words|, mwts)
  {
    Render(AllSpaced(SurfaceFrom(words, mwts, i, j)))
  }

  lemma {:induction false} RenderedStep(words: seq<Word>, mwts: seq<MultiwordToken>, i: nat, j: nat,
                                        t: Surface, shown: string, i': nat, j': nat)
    requires OrderedRanges(|words|, mwts) && i < |words| && t == SurfaceAt(words, mwts, i, j)
    requires shown == SpacedOf(t.form, t.misc).Shown() && i' == t.last + 1 && j' == if t.isMultiword then j + 1 else j
    ensures i < i' <= |words| && Rendered(words, mwts, i, j) == shown + Rendered(words, mwts, i', j')
  {
    SurfaceStep(words, mwts, i, j);
    var ts := SurfaceFrom(words, mwts, i, j);
    RenderCons(SpacedOf(t.form, t.misc), AllSpaced(ts[1..]));
  }

  /** Writes the sentence with the spaces its tokens carry. */
  method WriteSentence(s: Sentence) returns (out: string)
    requires WellShaped(s)
    ensures out == Render(AllSpaced(TokensOf(s)))
  {
    out := "";
    var words, mwts := s.words, s.multiwordTokens;
    var i, j: nat := 1, 0;
    while i < |words|
      invariant 1 <= i <= |words| && 0 <= j
      invariant out + Rendered(words, mwts, i, j) == Rendered(words, mwts, 1, 0)
      decreases |words| - i
    {
      var shown;
      shown, i, j := WriteAt(words, mwts, i, j);
      Assoc(out, shown, Rendered(words, mwts, i, j));
      out := out + shown;
    }
    assert out + "" == out;
  }

  /** The body of the loop: the token at word i, a multiword token with all its words passed. */
  method WriteAt(words: seq<Word>, mwts: seq<MultiwordToken>, i: nat, j: nat) returns (shown: string, i': nat, j': nat)
    requires OrderedRanges(|words|, mwts) && i < |words|
    ensures i < i' <= |words|
    ensures Rendered(words, mwts, i, j) == shown + Rendered(words, mwts, i', j')
  {
    var multiword := j < |mwts| && mwts[j].idFirst == i;
    var form := if multiword then mwts[j].form else words[i].form;
    var misc := if multiword then mwts[j].misc else words[i].misc;
    shown := WriteToken(form, misc);
    i', j' := i, j;
    if multiword { i', j' := mwts[j].idLast, j + 1; }
    i' := i' + 1;
    RenderedStep(words, mwts, i, j, Surface(form, misc, i, i' - 1, multiword), shown, i', j');
  }

  method WriteToken(form: string, misc: string) returns (out: string)
    ensures out == SpacedOf(form, misc).Shown()
  {
    var tok := new Token(form, misc);
    out := tok.GetSpaces(M.SPACES_BEFORE);
    var spaces := tok.GetSpaces(M.SPACES_IN_TOKEN);
    out := out + (if spaces != "" then spaces else form);
    spaces := tok.GetSpacesAfter();
    out := out + spaces;
  }

  // ---------- whole runs ----------

  /** Reads one text to its end and writes every sentence. */
  method WriteRest(w: Wrapper, s: Sentence) returns (out: string)
    requires w.Valid()
    modifies w, w.tok, s
    ensures w.Valid() && w.script == []
    ensures Written(out, w.saved) == old(w.Remaining())
  {
    out := "";
    ghost var all := w.Remaining();
    var more := true;
    while more
      invariant w.Valid()
      invariant more ==> out + w.Remaining().out == all.out && w.Remaining().saved == all.saved
      invariant !more ==> w.script == [] && Written(out, w.saved) == all
      decreases more, |w.script|
    {
      ghost var before := w.Remaining();
      WriteNext(w.zs, w.source, w.pos, w.script, w.from, w.saved);
      ghost var found := NextFound(w.source, w.script, w.from);
      ghost var spaces, pos := w.saved, w.pos;
      more := w.NextSentence(s);
      if more {
        var shown := WriteSentence(s);
        ghost var f := found.value;
        ExpectedRenders(w.zs, w.source, f.forms, f.at, spaces + Gap(w.source, pos, f.forms[0].start));
        Assoc(out, shown, w.Remaining().out);
        out := out + shown;
      } else {
        assert out + "" == out;
      }
    }
  }

  /** The whole pipeline over any blocks, each read to its end before the next is set: with or without a splitter, the
      output and the saved spaces are the text of the blocks exactly when the blocks are read faithfully. */
  method WriteRun(w: Wrapper, blocks: seq<Block>, s: Sentence) returns (out: string)
    requires AllOk(w.zs, blocks)
    modifies w, w.tok, s
    ensures Written(out, w.saved) == WriteBlocks(w.zs, blocks, old(w.saved))
    ensures out + w.saved == old(w.saved) + Texts(blocks) <==> FaithfulBlocks(w.zs, blocks)
  {
    out := "";
    ghost var all := WriteBlocks(w.zs, blocks, w.saved);
    ghost var rest := blocks;
    for k := 0 to |blocks|
      invariant rest == blocks[k..] && AllOk(w.zs, rest)
      invariant out + WriteBlocks(w.zs, rest, w.saved).out == all.out &&
                WriteBlocks(w.zs, rest, w.saved).saved == all.saved
    {
      assert rest[0] == blocks[k];
      ghost var later := WriteBlocks(w.zs, rest[1..], WriteBlock(w.zs, rest[0], w.saved).saved).out;
      w.SetText(blocks[k]);
      var shown := WriteRest(w, s);
      Assoc(out, shown, later);
      out := out + shown;
      rest := rest[1..];
    }
    assert out + "" == out;
    LosslessExactly(w.zs, blocks, old(w.saved));
  }
}
