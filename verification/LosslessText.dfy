/** What is kept of a text, and what is written of it. */
module LosslessText {
  import opened Sequences

  // What the tokenizer wrapper keeps, and what the plaintext writer makes of it. Everything is a function of the slices
  // that the inner tokenizer returns, for the wrapper of src/tokenizer/morphodita_tokenizer_wrapper.cpp:39-174 with
  // normalized spaces off and the writer of src/sentence/output_format.cpp:326-337. Text is a sequence of code points;
  // `zs` stands for the characters of the space-separator category.

  /** A piece of the text, by offsets. */
  datatype Slice = Slice(start: nat, end: nat)

  predicate IsBlank(c: char) { c == '\r' || c == '\n' || c == '\t' || c == ' ' }

  predicate IsSpacing(zs: set<char>, c: char) { c in zs || c == '\r' || c == '\n' || c == '\t' }

  // ---------- forms ----------

  /** The form of a raw token: CR, LF and TAB become spaces, and runs of spaces become one. */
  function Squeeze(raw: string, afterSpace: bool): (form: string)
    ensures |form| <= |raw|
  {
    if raw == "" then ""
    else
      var c := if IsBlank(raw[0]) then ' ' else raw[0];
      if c == ' ' && afterSpace then Squeeze(raw[1..], true) else [c] + Squeeze(raw[1..], c == ' ')
  }

  /** The characters that are no blanks. */
  function Ink(s: string): string {
    if s == "" then "" else (if IsBlank(s[0]) then "" else [s[0]]) + Ink(s[1..])
  }

  /** A blank stands behind the first m characters that are none, and in front of the next one. */
  predicate GapAt(s: string, m: nat) {
    exists i | 0 <= i < |s| :: IsBlank(s[i]) && |Ink(s[..i])| == m
  }

  /** No CR, LF or TAB, and no two spaces in a row. */
  predicate Tidy(s: string) {
    && (forall i | 0 <= i < |s| :: IsBlank(s[i]) ==> s[i] == ' ')
    && (forall i, j | 0 <= i < |s| && 0 <= j < |s| && j == i + 1 :: s[i] == ' ' ==> s[j] != ' ')
  }

  lemma {:induction false} GapFront(s: string, m: nat)
    requires s != ""
    ensures GapAt(s, m) <==>
              if IsBlank(s[0]) then m == 0 || GapAt(s[1..], m) else m > 0 && GapAt(s[1..], m - 1)
  {
    var t, d := s[1..], if IsBlank(s[0]) then 0 else 1;
    if GapAt(s, m) {
      var i :| 0 <= i < |s| && IsBlank(s[i]) && |Ink(s[..i])| == m;
      if i > 0 {
        InkFront(s, i);
        assert IsBlank(t[i - 1]);
      }
    }
    if m >= d && GapAt(t, m - d) {
      var i :| 0 <= i < |t| && IsBlank(t[i]) && |Ink(t[..i])| == m - d;
      InkFront(s, i + 1);
      assert IsBlank(s[i + 1]);
    }
    if IsBlank(s[0]) && m == 0 { assert s[..0] == ""; }
  }

  lemma {:induction false} InkFront(s: string, i: nat)
    requires 0 < i <= |s|
    ensures |Ink(s[..i])| == (if IsBlank(s[0]) then 0 else 1) + |Ink(s[1..][..i - 1])|
  {
    assert s[..i][1..] == s[1..][..i - 1];
  }

  lemma {:induction false} TidyCons(c: char, s: string)
    requires Tidy(s) && (IsBlank(c) ==> c == ' ' && (s == "" || s[0] != ' '))
    ensures Tidy([c] + s)
  {
  }

  lemma {:induction false} SqueezeKeeps(raw: string, afterSpace: bool)
    ensures var form := Squeeze(raw, afterSpace);
            Tidy(form) && Ink(form) == Ink(raw) && (afterSpace && form != "" ==> form[0] != ' ')
    decreases |raw|
  {
    if raw != "" {
      var c := if IsBlank(raw[0]) then ' ' else raw[0];
      SqueezeKeeps(raw[1..], c == ' ');
      if !(c == ' ' && afterSpace) {
        var rest := Squeeze(raw[1..], c == ' ');
        TidyCons(c, rest);
        assert ([c] + rest)[1..] == rest;
      }
    }
  }

  lemma {:induction false} SqueezeGaps(raw: string, afterSpace: bool, m: nat)
    ensures GapAt(Squeeze(raw, afterSpace), m) <==> GapAt(raw, m) && (afterSpace ==> m > 0)
    decreases |raw|
  {
    if raw != "" {
      var c := if IsBlank(raw[0]) then ' ' else raw[0];
      var rest := Squeeze(raw[1..], c == ' ');
      var d := if IsBlank(raw[0]) then 0 else 1;
      GapFront(raw, m);
      if m >= d { SqueezeGaps(raw[1..], c == ' ', m - d); }
      if !(c == ' ' && afterSpace) {
        GapFront([c] + rest, m);
        assert ([c] + rest)[1..] == rest;
      }
    }
  }

  /** The form of a raw token, told without computing it: it is tidy, it has the characters of the raw text that are no
      blanks, in order, and between two of them, before the first and behind the last one it has a space exactly where
      the raw text has blanks. */
  lemma {:induction false} FormMeans(raw: string)
    ensures Tidy(Squeeze(raw, false)) && Ink(Squeeze(raw, false)) == Ink(raw)
    ensures forall m: nat :: GapAt(Squeeze(raw, false), m) <==> GapAt(raw, m)
  {
    SqueezeKeeps(raw, false);
    forall m: nat ensures GapAt(Squeeze(raw, false), m) <==> GapAt(raw, m) { SqueezeGaps(raw, false, m); }
  }

  /** There is only one such form. */
  lemma {:induction false} TidyUnique(f: string, g: string)
    requires Tidy(f) && Tidy(g) && Ink(f) == Ink(g) && forall m: nat :: GapAt(f, m) <==> GapAt(g, m)
    ensures f == g
    decreases |f|
  {
    if f == "" || g == "" {
      FirstShows(f);
      FirstShows(g);
    } else {
      FirstShows(f);
      FirstShows(g);
      GapFront(f, 0);
      GapFront(g, 0);
      TidyTail(f);
      TidyTail(g);
      var d := if IsBlank(f[0]) then 0 else 1;
      forall m: nat ensures GapAt(f[1..], m) <==> GapAt(g[1..], m) {
        GapFront(f, m + d);
        GapFront(g, m + d);
      }
      assert Ink(f)[d..] == Ink(f[1..]) && Ink(g)[d..] == Ink(g[1..]);
      TidyUnique(f[1..], g[1..]);
    }
  }

  /** A text that is not empty starts with a blank or has a first character that is none. */
  lemma {:induction false} FirstShows(s: string)
    ensures s == "" ==> Ink(s) == "" && forall m: nat :: !GapAt(s, m)
    ensures s != "" ==> if IsBlank(s[0]) then GapAt(s, 0) else Ink(s) != "" && Ink(s)[0] == s[0] && !GapAt(s, 0)
  {
    if s != "" { GapFront(s, 0); }
  }

  lemma {:induction false} TidyTail(s: string)
    requires Tidy(s) && s != ""
    ensures Tidy(s[1..]) && (IsBlank(s[0]) ==> !GapAt(s[1..], 0))
  {
    var t := s[1..];
    assert forall i | 0 <= i < |t| :: t[i] == s[i + 1];
    if t != "" { GapFront(t, 0); }
  }

  /** What the writer shows of a token: the raw text where the length changed, which is when it is kept in
      SpacesInToken, and the form otherwise. */
  function Shown(raw: string): (r: string)
    ensures |r| == |raw|
  {
    var form := Squeeze(raw, false);
    if |form| != |raw| then raw else form
  }

  predicate HasControl(s: string) { '\r' in s || '\n' in s || '\t' in s }

  /** Two blanks in a row. */
  predicate HasRun(s: string) { exists i | 0 <= i < |s| - 1 :: IsBlank(s[i]) && IsBlank(s[i + 1]) }

  lemma {:induction false} SqueezeLength(raw: string, afterSpace: bool)
    ensures |Squeeze(raw, afterSpace)| == |raw| <==> !HasRun(raw) && !(afterSpace && raw != "" && IsBlank(raw[0]))
    decreases |raw|
  {
    if raw != "" {
      var blank := IsBlank(raw[0]);
      SqueezeLength(raw[1..], blank);
      RunFront(raw);
    }
  }

  lemma {:induction false} RunFront(s: string)
    requires s != ""
    ensures HasRun(s) <==> HasRun(s[1..]) || (|s| > 1 && IsBlank(s[0]) && IsBlank(s[1]))
  {
    var t := s[1..];
    if HasRun(s) {
      var i :| 0 <= i < |s| - 1 && IsBlank(s[i]) && IsBlank(s[i + 1]);
      if i > 0 { assert t[i - 1] == s[i] && t[i - 1 + 1] == s[i + 1]; }
    }
    if HasRun(t) {
      var i :| 0 <= i < |t| - 1 && IsBlank(t[i]) && IsBlank(t[i + 1]);
      assert s[i + 1] == t[i] && s[i + 1 + 1] == t[i + 1];
    }
  }

  lemma {:induction false} SqueezeSame(raw: string, afterSpace: bool)
    requires |Squeeze(raw, afterSpace)| == |raw|
    ensures Squeeze(raw, afterSpace) == raw <==> !HasControl(raw)
    decreases |raw|
  {
    if raw != "" {
      var c := if IsBlank(raw[0]) then ' ' else raw[0];
      SqueezeSame(raw[1..], c == ' ');
      assert raw == [raw[0]] + raw[1..];
    }
  }

  /** No CR, LF or TAB inside, or else two blanks in a row, which make the raw text be kept. */
  predicate Kept(raw: string) { !HasControl(raw) || HasRun(raw) }

  /** A token is shown as it was exactly when its text is kept. */
  lemma {:induction false} ShownExactly(raw: string)
    ensures Shown(raw) == raw <==> Kept(raw)
  {
    SqueezeLength(raw, false);
    if |Squeeze(raw, false)| == |raw| { SqueezeSame(raw, false); }
  }

  // ---------- slices ----------

  function Raw(source: string, f: Slice): string
    requires f.start <= f.end <= |source|
  {
    source[f.start..f.end]
  }

  /** A form without the blanks around it. */
  function TrimLeft(source: string, f: Slice): (r: Slice)
    requires f.start <= f.end <= |source|
    ensures f.start <= r.start <= r.end == f.end
    ensures r.start < r.end ==> !IsBlank(source[r.start])
    ensures forall k | f.start <= k < r.start :: IsBlank(source[k])
    decreases f.end - f.start
  {
    if f.start < f.end && IsBlank(source[f.start]) then TrimLeft(source, Slice(f.start + 1, f.end)) else f
  }

  function TrimRight(source: string, f: Slice): (r: Slice)
    requires f.start <= f.end <= |source|
    ensures f.start == r.start <= r.end <= f.end
    ensures r.start < r.end ==> !IsBlank(source[r.end - 1])
    ensures forall k | r.end <= k < f.end :: IsBlank(source[k])
    decreases f.end - f.start
  {
    if f.start < f.end && IsBlank(source[f.end - 1]) then TrimRight(source, Slice(f.start, f.end - 1)) else f
  }

  /** The tokenizer's contract: slices of the text from `from` on, ordered and disjoint. */
  predicate Ordered(source: string, forms: seq<Slice>, from: nat)
    decreases |forms|
  {
    forms == [] || (from <= forms[0].start <= forms[0].end <= |source| && Ordered(source, forms[1..], forms[0].end))
  }

  function LastEnd(forms: seq<Slice>, from: nat): nat {
    if forms == [] then from else forms[|forms| - 1].end
  }

  /** The forms of one sentence, trimmed, without empty ones. */
  function Clean(source: string, forms: seq<Slice>, from: nat): (r: seq<Slice>)
    requires Ordered(source, forms, from)
    ensures Ordered(source, r, from)
    ensures forall f | f in r :: f.start < f.end
    decreases |forms|
  {
    if forms == [] then []
    else
      var f := TrimRight(source, TrimLeft(source, forms[0]));
      var rest := Clean(source, forms[1..], forms[0].end);
      OrderedFrom(source, rest, f.end, forms[0].end);
      OrderedFrom(source, rest, from, forms[0].end);
      if f.start == f.end then rest else [f] + rest
  }

  lemma {:induction false} OrderedFrom(source: string, forms: seq<Slice>, from: nat, later: nat)
    requires Ordered(source, forms, later) && from <= later
    ensures Ordered(source, forms, from)
  {
  }

  predicate InSlices(forms: seq<Slice>, p: nat) { exists f :: f in forms && f.start <= p < f.end }

  /** Nothing but blanks is cut off or dropped ... */
  lemma {:induction false} CleanKeeps(source: string, forms: seq<Slice>, from: nat, p: nat)
    requires Ordered(source, forms, from) && p < |source|
    ensures InSlices(Clean(source, forms, from), p) ==> InSlices(forms, p)
    ensures InSlices(forms, p) && !IsBlank(source[p]) ==> InSlices(Clean(source, forms, from), p)
    decreases |forms|
  {
    if forms != [] {
      CleanKeeps(source, forms[1..], forms[0].end, p);
      var left := TrimLeft(source, forms[0]);
      var f := TrimRight(source, left);
      assert forms == [forms[0]] + forms[1..];
      InSlicesFirst(forms[0], forms[1..], p);
      InSlicesFirst(f, Clean(source, forms[1..], forms[0].end), p);
    }
  }

  /** ... and the forms that are left neither start nor end with a blank. */
  lemma {:induction false} CleanEnds(source: string, forms: seq<Slice>, from: nat, f: Slice)
    requires Ordered(source, forms, from) && f in Clean(source, forms, from)
    ensures f.start < f.end <= |source| && !IsBlank(source[f.start]) && !IsBlank(source[f.end - 1])
    decreases |forms|
  {
    var left := TrimLeft(source, forms[0]);
    if f != TrimRight(source, left) { CleanEnds(source, forms[1..], forms[0].end, f); }
  }

  lemma {:induction false} InSlicesFirst(f: Slice, rest: seq<Slice>, p: nat)
    ensures InSlices([f] + rest, p) <==> f.start <= p < f.end || InSlices(rest, p)
  {
    if f.start <= p < f.end { assert f in [f] + rest; }
    if InSlices(rest, p) {
      var g :| g in rest && g.start <= p < g.end;
      assert g in [f] + rest;
    }
  }

  /** All sentences of one text, in order. */
  predicate OrderedScript(source: string, script: seq<seq<Slice>>, from: nat)
    decreases |script|
  {
    script == [] || (Ordered(source, script[0], from) && OrderedScript(source, script[1..], LastEnd(script[0], from)))
  }

  lemma {:induction false} OrderedEnd(source: string, forms: seq<Slice>, from: nat)
    requires Ordered(source, forms, from) && from <= |source|
    ensures from <= LastEnd(forms, from) <= |source|
    decreases |forms|
  {
    if |forms| > 0 {
      OrderedEnd(source, forms[1..], forms[0].end);
      assert LastEnd(forms, from) == LastEnd(forms[1..], forms[0].end);
    }
  }

  lemma {:induction false} CleanEnd(source: string, forms: seq<Slice>, from: nat)
    requires Ordered(source, forms, from) && from <= |source|
    ensures Clean(source, forms, from) != [] ==> LastEnd(Clean(source, forms, from), from) <= LastEnd(forms, from)
    decreases |forms|
  {
    if forms != [] {
      CleanEnd(source, forms[1..], forms[0].end);
      var rest := Clean(source, forms[1..], forms[0].end);
      OrderedEnd(source, forms[1..], forms[0].end);
      assert LastEnd(forms, from) == LastEnd(forms[1..], forms[0].end);
      var r := Clean(source, forms, from);
      if rest != [] { assert r[|r| - 1] == rest[|rest| - 1]; }
    }
  }

  /** The length of the spacing at the front of a text. */
  function SpacingLength(zs: set<char>, s: string): (n: nat)
    ensures n <= |s|
  {
    if s == "" || !IsSpacing(zs, s[0]) then 0 else 1 + SpacingLength(zs, s[1..])
  }

  /** It holds space separators, carriage returns, line feeds and tabs only, and none of them follows. */
  lemma {:induction false} SpacingMeans(zs: set<char>, s: string)
    ensures forall k | 0 <= k < SpacingLength(zs, s) :: s[k] in zs || s[k] in "\r\n\t"
    ensures var n := SpacingLength(zs, s); n < |s| ==> s[n] !in zs && s[n] !in "\r\n\t"
    decreases |s|
  {
    if s != "" {
      assert s[0] in "\r\n\t" <==> s[0] == '\r' || s[0] == '\n' || s[0] == '\t';
      if IsSpacing(zs, s[0]) { SpacingMeans(zs, s[1..]); }
    }
  }

  // ---------- what is written ----------

  /** Where the cursor stands after a sentence: past its last token and the spacing that follows. */
  function NextPos(zs: set<char>, source: string, forms: seq<Slice>, from: nat): (p: nat)
    requires forms != [] && Ordered(source, forms, from) && from <= |source|
    ensures LastEnd(forms, from) <= p <= |source|
  {
    OrderedEnd(source, forms, from);
    var end := LastEnd(forms, from);
    end + SpacingLength(zs, source[end..])
  }

  /** The tokens of a sentence as written, each followed by what stands before the next one; the last by its spacing. */
  function Body(zs: set<char>, source: string, forms: seq<Slice>, from: nat): string
    requires forms != [] && Ordered(source, forms, from) && from <= |source|
    decreases |forms|
  {
    var f := forms[0];
    if |forms| == 1 then Shown(Raw(source, f)) + source[f.end..NextPos(zs, source, forms, from)]
    else
      assert Ordered(source, forms[1..], f.end) && forms[1..][0] == forms[1];
      Shown(Raw(source, f)) + source[f.end..forms[1].start] + Body(zs, source, forms[1..], f.end)
  }

  /** The text between the cursor and the first token; none if the token starts before the cursor. */
  function Gap(source: string, pos: nat, start: nat): string
    requires start <= |source|
  {
    if start > pos then source[pos..start] else ""
  }

  datatype Written = Written(out: string, saved: string)

  /** The output for the rest of a text, and the spaces saved at its end. */
  function WriteText(zs: set<char>, source: string, pos: nat, script: seq<seq<Slice>>, from: nat,
      saved: string): Written
    requires pos <= |source| && from <= |source| && OrderedScript(source, script, from)
    decreases |script|
  {
    if script == [] then Written("", saved + source[pos..])
    else
      var forms := Clean(source, script[0], from);
      OrderedEnd(source, script[0], from);
      if forms == [] then WriteText(zs, source, pos, script[1..], LastEnd(script[0], from), saved)
      else
        var rest := WriteText(zs, source, NextPos(zs, source, forms, from), script[1..], LastEnd(script[0], from), "");
        Written(saved + Gap(source, pos, forms[0].start) + Body(zs, source, forms, from) + rest.out, rest.saved)
  }

  /** One call of set_text with what the inner tokenizer will return for it, the leading spacing left out. */
  datatype Block = Block(text: string, script: seq<seq<Slice>>)

  function Source(zs: set<char>, b: Block): string { b.text[SpacingLength(zs, b.text)..] }

  predicate BlockOk(zs: set<char>, b: Block) { OrderedScript(Source(zs, b), b.script, 0) }

  predicate AllOk(zs: set<char>, blocks: seq<Block>) {
    blocks == [] || (BlockOk(zs, blocks[0]) && AllOk(zs, blocks[1..]))
  }

  /** One block, with what was saved before it. */
  function WriteBlock(zs: set<char>, b: Block, saved: string): Written
    requires BlockOk(zs, b)
  {
    WriteText(zs, Source(zs, b), 0, b.script, 0, saved + b.text[..SpacingLength(zs, b.text)])
  }

  /** A run over blocks, each read to its end before the next one is set. */
  function WriteBlocks(zs: set<char>, blocks: seq<Block>, saved: string): Written
    requires AllOk(zs, blocks)
  {
    if blocks == [] then Written("", saved)
    else
      var first := WriteBlock(zs, blocks[0], saved);
      var rest := WriteBlocks(zs, blocks[1..], first.saved);
      Written(first.out + rest.out, rest.saved)
  }

  function Texts(blocks: seq<Block>): string {
    if blocks == [] then "" else blocks[0].text + Texts(blocks[1..])
  }

  // ---------- when it is lossless ----------

  /** The text of every token is kept. */
  predicate FaithfulForms(source: string, forms: seq<Slice>, from: nat)
    requires Ordered(source, forms, from)
    decreases |forms|
  {
    forms == [] || (Kept(Raw(source, forms[0])) && FaithfulForms(source, forms[1..], forms[0].end))
  }

  /** ... and no sentence starts inside the spacing already taken after the one before. */
  predicate FaithfulText(zs: set<char>, source: string, pos: nat, script: seq<seq<Slice>>, from: nat)
    requires pos <= |source| && from <= |source| && OrderedScript(source, script, from)
    decreases |script|
  {
    script == [] ||
    (var forms := Clean(source, script[0], from);
     OrderedEnd(source, script[0], from);
     if forms == [] then FaithfulText(zs, source, pos, script[1..], LastEnd(script[0], from))
     else
       && pos <= forms[0].start && FaithfulForms(source, forms, from)
       && FaithfulText(zs, source, NextPos(zs, source, forms, from), script[1..], LastEnd(script[0], from)))
  }

  predicate FaithfulBlocks(zs: set<char>, blocks: seq<Block>)
    requires AllOk(zs, blocks)
  {
    blocks == [] ||
    (FaithfulText(zs, Source(zs, blocks[0]), 0, blocks[0].script, 0) && FaithfulBlocks(zs, blocks[1..]))
  }

  /** Concatenations whose first parts have the same length. */
  lemma {:induction false} EqualParts(a: string, b: string, x: string, y: string)
    requires |a| == |x|
    ensures a + b == x + y <==> a == x && b == y
  {
    if a + b == x + y {
      assert a == (a + b)[..|a|] && x == (x + y)[..|a|];
      assert b == (a + b)[|a|..] && y == (x + y)[|a|..];
    }
  }

  lemma {:induction false} Slices3(s: string, a: nat, b: nat, c: nat)
    requires a <= b <= c <= |s|
    ensures s[a..b] + s[b..c] == s[a..c]
  {
  }

  /** The body of a sentence has the length of the text it covers, and is that text exactly when its forms are faithful.
      */
  lemma {:induction false} BodyExact(zs: set<char>, source: string, forms: seq<Slice>, from: nat)
    requires forms != [] && Ordered(source, forms, from) && from <= |source|
    ensures forms[0].start <= NextPos(zs, source, forms, from)
    ensures var covered := source[forms[0].start..NextPos(zs, source, forms, from)];
            var body := Body(zs, source, forms, from);
            |body| == |covered| && (body == covered <==> FaithfulForms(source, forms, from))
    decreases |forms|
  {
    var f, p := forms[0], NextPos(zs, source, forms, from);
    var raw := Raw(source, f);
    ShownExactly(raw);
    if |forms| == 1 {
      Slices3(source, f.start, f.end, p);
      EqualParts(Shown(raw), source[f.end..p], raw, source[f.end..p]);
      assert FaithfulForms(source, forms[1..], f.end);
    } else {
      var g := forms[1];
      var rest := forms[1..];
      assert rest[0] == g && LastEnd(rest, f.end) == LastEnd(forms, from);
      BodyExact(zs, source, rest, f.end);
      Slices3(source, f.start, f.end, g.start);
      Slices3(source, f.start, g.start, p);
      var between := source[f.end..g.start];
      EqualParts(Shown(raw) + between, Body(zs, source, rest, f.end), raw + between, source[g.start..p]);
      EqualParts(Shown(raw), between, raw, between);
    }
  }

  /** Output and saved spaces are never shorter than the text; they equal it exactly when it is read faithfully;
      and unless they are longer, what is saved is a piece of its end. */
  ghost predicate Exact(w: Written, expected: string, faithful: bool) {
    && |w.out + w.saved| >= |expected|
    && (w.out + w.saved == expected <==> faithful)
    && (|w.out + w.saved| == |expected| ==> w.saved == expected[|w.out|..])
  }

  /** A part of the right length before the rest of the text. */
  lemma {:induction false} ExactAfter(part: string, covered: string, same: bool, rest: Written, remaining: string,
      faithful: bool)
    requires |part| == |covered| && (part == covered <==> same)
    requires Exact(rest, remaining, faithful)
    ensures Exact(Written(part + rest.out, rest.saved), covered + remaining, same && faithful)
  {
    var w, expected := Written(part + rest.out, rest.saved), covered + remaining;
    assert w.out + w.saved == part + (rest.out + rest.saved);
    EqualParts(part, rest.out + rest.saved, covered, remaining);
    if |w.out + w.saved| == |expected| {
      assert expected[|w.out|..] == remaining[|rest.out|..];
    }
  }

  /** Spacing taken twice makes the output longer than the text. */
  lemma {:induction false} ExactOverlap(part: string, rest: Written, remaining: string, expected: string,
      faithful: bool)
    requires Exact(rest, remaining, faithful)
    requires |part| + |remaining| > |expected|
    ensures Exact(Written(part + rest.out, rest.saved), expected, false)
  {
  }

  lemma {:induction false} SentenceExact(zs: set<char>, source: string, pos: nat, forms: seq<Slice>, from: nat,
      saved: string, rest: Written, faithful: bool)
    requires pos <= |source| && from <= |source| && forms != [] && Ordered(source, forms, from)
    requires Exact(rest, source[NextPos(zs, source, forms, from)..], faithful)
    ensures var w := Written(saved + Gap(source, pos, forms[0].start) + Body(zs, source, forms, from) + rest.out,
                             rest.saved);
            Exact(w, saved + source[pos..], pos <= forms[0].start && FaithfulForms(source, forms, from) && faithful)
  {
    BodyExact(zs, source, forms, from);
    var start, p := forms[0].start, NextPos(zs, source, forms, from);
    var body, gap, covered := Body(zs, source, forms, from), Gap(source, pos, start), source[start..p];
    if pos <= start {
      EqualParts(saved + gap, body, saved + gap, covered);
      ExactAfter(saved + gap + body, saved + gap + covered, FaithfulForms(source, forms, from), rest, source[p..],
                 faithful);
      Cut(saved, source, pos, start, p);
    } else {
      ExactOverlap(saved + gap + body, rest, source[p..], saved + source[pos..], faithful);
    }
  }

  lemma {:induction false} Cut(saved: string, source: string, pos: nat, start: nat, p: nat)
    requires pos <= start <= p <= |source|
    ensures saved + source[pos..] == saved + Gap(source, pos, start) + source[start..p] + source[p..]
  {
    assert source[pos..] == Gap(source, pos, start) + source[start..p] + source[p..];
  }

  lemma {:induction false} TextExact(zs: set<char>, source: string, pos: nat, script: seq<seq<Slice>>, from: nat,
      saved: string)
    requires pos <= |source| && from <= |source| && OrderedScript(source, script, from)
    ensures Exact(WriteText(zs, source, pos, script, from, saved), saved + source[pos..],
                  FaithfulText(zs, source, pos, script, from))
    decreases |script|
  {
    if script != [] {
      var forms, last := Clean(source, script[0], from), LastEnd(script[0], from);
      OrderedEnd(source, script[0], from);
      if forms == [] {
        TextExact(zs, source, pos, script[1..], last, saved);
      } else {
        var p := NextPos(zs, source, forms, from);
        TextExact(zs, source, p, script[1..], last, "");
        assert "" + source[p..] == source[p..];
        SentenceExact(zs, source, pos, forms, from, saved, WriteText(zs, source, p, script[1..], last, ""),
                      FaithfulText(zs, source, p, script[1..], last));
      }
    }
  }

  lemma {:induction false} Joined(first: Written, rest: Written, here: string, later: string, faithfulHere: bool,
      faithfulLater: bool)
    requires Exact(first, here, faithfulHere)
    requires |rest.out + rest.saved| >= |first.saved + later|
    requires rest.out + rest.saved == first.saved + later <==> faithfulLater
    ensures var w := Written(first.out + rest.out, rest.saved);
            && |w.out + w.saved| >= |here + later|
            && (w.out + w.saved == here + later <==> faithfulHere && faithfulLater)
  {
    var w := Written(first.out + rest.out, rest.saved);
    assert w.out + w.saved == first.out + (rest.out + rest.saved);
    if |w.out + w.saved| == |here + later| {
      var k := |first.out|;
      assert here == here[..k] + first.saved;
      assert here + later == here[..k] + (first.saved + later);
      EqualParts(first.out, rest.out + rest.saved, here[..k], first.saved + later);
      EqualParts(first.out, first.saved, here[..k], first.saved);
    }
  }

  lemma {:induction false} BlockExact(zs: set<char>, b: Block, saved: string)
    requires BlockOk(zs, b)
    ensures Exact(WriteBlock(zs, b, saved), saved + b.text, FaithfulText(zs, Source(zs, b), 0, b.script, 0))
  {
    var n := SpacingLength(zs, b.text);
    TextExact(zs, Source(zs, b), 0, b.script, 0, saved + b.text[..n]);
    Whole(saved, b.text, n);
  }

  lemma {:induction false} Whole(saved: string, text: string, n: nat)
    requires n <= |text|
    ensures saved + text[..n] + text[n..][0..] == saved + text
  {
  }

  /** Lossless tokenization, exactly: over any run, what was written and what is still saved are together the text of
      all blocks if and only if every token's text is kept and no sentence starts inside spacing already taken. */
  lemma {:induction false} LosslessExactly(zs: set<char>, blocks: seq<Block>, saved: string)
    requires AllOk(zs, blocks)
    ensures var w := WriteBlocks(zs, blocks, saved);
            && (w.out + w.saved == saved + Texts(blocks) <==> FaithfulBlocks(zs, blocks))
            && |w.out + w.saved| >= |saved + Texts(blocks)|
    decreases |blocks|
  {
    if blocks == [] {
      assert "" + saved == saved + "";
    } else {
      var b, first := blocks[0], WriteBlock(zs, blocks[0], saved);
      BlockExact(zs, b, saved);
      LosslessExactly(zs, blocks[1..], first.saved);
      Joined(first, WriteBlocks(zs, blocks[1..], first.saved), saved + b.text, Texts(blocks[1..]),
             FaithfulText(zs, Source(zs, b), 0, b.script, 0), FaithfulBlocks(zs, blocks[1..]));
      Assoc(saved, b.text, Texts(blocks[1..]));
    }
  }

  /** The two ways to fail. A tab alone inside a token comes out as a space; a sentence that starts with a space
      separator which the sentence before has already taken shows it twice. */
  lemma {:induction false} NotLossless(zs: set<char>, c: char)
    requires zs == {c} && !IsBlank(c) && c != 'a' && c != 'b'
    ensures var tab, separator := Block("a\tb", [[Slice(0, 3)]]), Block(['a', c, 'b'], [[Slice(0, 1)], [Slice(1, 3)]]);
            && AllOk(zs, [tab]) && AllOk(zs, [separator])
            && (var w := WriteBlocks(zs, [tab], ""); w.out + w.saved != "a\tb")
            && (var w := WriteBlocks(zs, [separator], ""); w.out + w.saved != ['a', c, 'b'])
  {
    TabLost(zs);
    SeparatorTwice(zs, c);
  }

  lemma {:induction false} TabLost(zs: set<char>)
    requires 'a' !in zs
    ensures var b := Block("a\tb", [[Slice(0, 3)]]);
            AllOk(zs, [b]) && var w := WriteBlocks(zs, [b], ""); w.out + w.saved != "a\tb"
  {
    var text, f := "a\tb", Slice(0, 3);
    var b := Block(text, [[f]]);
    assert SpacingLength(zs, text) == 0 && text[0..] == text && Source(zs, b) == text;
    assert Ordered(text, [f], 0) && [f][1..] == [] && [[f]][1..] == [] && [b][1..] == [];
    assert BlockOk(zs, b) && AllOk(zs, [b]);
    assert TrimLeft(text, f) == f && TrimRight(text, f) == f && Clean(text, [f], 0) == [f];
    assert text[0..3] == text && '\t' in text && !HasRun(text);
    assert !FaithfulText(zs, text, 0, [[f]], 0);
    LosslessExactly(zs, [b], "");
    assert Texts([b]) == text + Texts([]) == text;
  }

  lemma {:induction false} SeparatorTwice(zs: set<char>, c: char)
    requires zs == {c} && !IsBlank(c) && c != 'a' && c != 'b'
    ensures var b := Block(['a', c, 'b'], [[Slice(0, 1)], [Slice(1, 3)]]);
            AllOk(zs, [b]) && var w := WriteBlocks(zs, [b], ""); w.out + w.saved != ['a', c, 'b']
  {
    var text, script := ['a', c, 'b'], [[Slice(0, 1)], [Slice(1, 3)]];
    var b := Block(text, script);
    assert SpacingLength(zs, text) == 0 && text[0..] == text && Source(zs, b) == text && [b][1..] == [];
    SeparatorUnfaithful(zs, c, text, script);
    assert BlockOk(zs, b) && AllOk(zs, [b]) && !FaithfulBlocks(zs, [b]);
    LosslessExactly(zs, [b], "");
    assert Texts([b]) == text + Texts([]) == text;
  }

  lemma {:induction false} SeparatorUnfaithful(zs: set<char>, c: char, text: string, script: seq<seq<Slice>>)
    requires zs == {c} && !IsBlank(c) && text == ['a', c, 'b'] && script == [[Slice(0, 1)], [Slice(1, 3)]]
    ensures OrderedScript(text, script, 0) && !FaithfulText(zs, text, 0, script, 0)
  {
    var f, g := Slice(0, 1), Slice(1, 3);
    assert Ordered(text, [f], 0) && Ordered(text, [g], 1) && [f][1..] == [] && [g][1..] == [];
    assert script[1..] == [[g]] && [[g]][1..] == [];
    assert Clean(text, [f], 0) == [f] && Clean(text, [g], 1) == [g];
    assert text[1..][0] == c && SpacingLength(zs, text[1..]) >= 1;
    assert !FaithfulText(zs, text, NextPos(zs, text, [f], 0), [[g]], 1);
  }

  // ---------- a simple way to be faithful ----------

  /** Tokens that hold no CR, LF or TAB and start with no spacing. */
  predicate PlainForms(zs: set<char>, source: string, forms: seq<Slice>, from: nat)
    requires Ordered(source, forms, from)
    decreases |forms|
  {
    forms == [] ||
    (var f := forms[0];
     && (f.start < f.end ==> !IsSpacing(zs, source[f.start]) && !HasControl(Raw(source, f)))
     && PlainForms(zs, source, forms[1..], f.end))
  }

  predicate PlainScript(zs: set<char>, source: string, script: seq<seq<Slice>>, from: nat)
    requires from <= |source| && OrderedScript(source, script, from)
    decreases |script|
  {
    script == [] ||
    (OrderedEnd(source, script[0], from);
     && PlainForms(zs, source, Clean(source, script[0], from), from)
     && PlainScript(zs, source, script[1..], LastEnd(script[0], from)))
  }

  predicate PlainBlocks(zs: set<char>, blocks: seq<Block>)
    requires AllOk(zs, blocks)
  {
    blocks == [] || (PlainScript(zs, Source(zs, blocks[0]), blocks[0].script, 0) && PlainBlocks(zs, blocks[1..]))
  }

  /** Spacing ends at the first character that is none. */
  lemma {:induction false} SpacingStops(zs: set<char>, s: string, i: nat)
    requires i < |s| && !IsSpacing(zs, s[i])
    ensures SpacingLength(zs, s) <= i
    decreases i
  {
    if i > 0 { SpacingStops(zs, s[1..], i - 1); }
  }

  lemma {:induction false} PlainFormsFaithful(zs: set<char>, source: string, forms: seq<Slice>, from: nat)
    requires Ordered(source, forms, from) && PlainForms(zs, source, forms, from)
    requires forall f | f in forms :: f.start < f.end
    ensures FaithfulForms(source, forms, from)
    decreases |forms|
  {
    if forms != [] {
      assert forms[0] in forms;
      PlainFormsFaithful(zs, source, forms[1..], forms[0].end);
    }
  }

  /** The cursor never stands past the spacing after the last token end `e`. */
  lemma {:induction false} PlainTextFaithful(zs: set<char>, source: string, pos: nat, script: seq<seq<Slice>>,
      from: nat, e: nat)
    requires pos <= |source| && e <= from <= |source| && OrderedScript(source, script, from)
    requires pos <= e + SpacingLength(zs, source[e..]) && PlainScript(zs, source, script, from)
    ensures FaithfulText(zs, source, pos, script, from)
    decreases |script|
  {
    if script != [] {
      var forms, last := Clean(source, script[0], from), LastEnd(script[0], from);
      OrderedEnd(source, script[0], from);
      if forms == [] {
        PlainTextFaithful(zs, source, pos, script[1..], last, e);
      } else {
        var f := forms[0];
        assert f in forms;
        SpacingStops(zs, source[e..], f.start - e);
        PlainFormsFaithful(zs, source, forms, from);
        CleanEnd(source, script[0], from);
        PlainTextFaithful(zs, source, NextPos(zs, source, forms, from), script[1..], last, LastEnd(forms, from));
      }
    }
  }

  /** Lossless tokenization: over any run of a tokenizer whose tokens hold no CR, LF or TAB and start with no spacing,
      the written text and the saved spaces are the text of all blocks. */
  lemma {:induction false} Lossless(zs: set<char>, blocks: seq<Block>, saved: string)
    requires AllOk(zs, blocks) && PlainBlocks(zs, blocks)
    ensures var w := WriteBlocks(zs, blocks, saved); w.out + w.saved == saved + Texts(blocks)
  {
    PlainBlocksFaithful(zs, blocks);
    LosslessExactly(zs, blocks, saved);
  }

  lemma {:induction false} PlainBlocksFaithful(zs: set<char>, blocks: seq<Block>)
    requires AllOk(zs, blocks) && PlainBlocks(zs, blocks)
    ensures FaithfulBlocks(zs, blocks)
  {
    if blocks != [] {
      PlainTextFaithful(zs, Source(zs, blocks[0]), 0, blocks[0].script, 0, 0);
      PlainBlocksFaithful(zs, blocks[1..]);
    }
  }
}
