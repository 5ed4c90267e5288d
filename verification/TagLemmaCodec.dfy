/** Tags and lemmas as the tagger stores them: the encoders of src/trainer/trainer_morphodita_parsito.cpp:799-876
    and the decoder and normalizations of src/model/model_morphodita_parsito.cpp:361-508. Strings are bytes. */
module TagLemmaCodec {
  import opened Sequences
  import opened Utf8

  const SPACE: byte := 0x20
  const TILDE: byte := 0x7E
  const UNDERSCORE: byte := 0x5F
  const C2: byte := 0xC2
  const A0: byte := 0xA0

  // ---------- searching ----------

  /** The first place of c at or after `from`, or the length. */
  function FindFrom(s: Bytes, c: byte, from: nat): (k: nat)
    ensures k <= |s|
    ensures from <= k < |s| ==> s[k] == c
    ensures from <= |s| ==> from <= k
    decreases |s| - from
  {
    if from >= |s| || s[from] == c then (if from <= |s| then from else |s|) else FindFrom(s, c, from + 1)
  }

  lemma {:induction false} FindNone(s: Bytes, c: byte, from: nat)
    ensures forall i | from <= i < FindFrom(s, c, from) :: s[i] != c
    decreases |s| - from
  {
    if from < |s| && s[from] != c { FindNone(s, c, from + 1); }
  }

  lemma {:induction false} FindAfter(a: Bytes, c: byte, rest: Bytes, from: nat)
    requires from <= |a| && forall i | from <= i < |a| :: a[i] != c
    ensures FindFrom(a + [c] + rest, c, from) == |a|
    ensures FindFrom(a, c, from) == |a|
  {
    var s := a + [c] + rest;
    FindNone(s, c, from);
    FindNone(a, c, from);
    assert s[|a|] == c;
    assert forall i | from <= i < |a| :: s[i] == a[i];
  }

  // ---------- tags ----------

  const SEPARATORS: Bytes := [0x7E, 0x21, 0x40, 0x23, 0x24, 0x25, 0x5E, 0x26, 0x2A, 0x28, 0x29, 0x2F]

  predicate Usable(k: nat, upostag: Bytes, xpostag: Bytes)
    requires k < |SEPARATORS|
  {
    SEPARATORS[k] !in upostag && SEPARATORS[k] !in xpostag
  }

  /** The search loop for a separator that neither UPOSTAG nor XPOSTAG contains. */
  method FindSeparator(upostag: Bytes, xpostag: Bytes) returns (separator: nat)
    ensures separator <= |SEPARATORS|
    ensures forall k | 0 <= k < separator :: !Usable(k, upostag, xpostag)
    ensures separator < |SEPARATORS| ==> Usable(separator, upostag, xpostag)
  {
    separator := 0;
    while separator < |SEPARATORS| && (SEPARATORS[separator] in upostag || SEPARATORS[separator] in xpostag)
      invariant separator <= |SEPARATORS|
      invariant forall k | 0 <= k < separator :: !Usable(k, upostag, xpostag)
    {
      separator := separator + 1;
    }
  }

  method CanCombineTag(upostag: Bytes, xpostag: Bytes) returns (ok: bool)
    ensures ok <==> exists k | 0 <= k < |SEPARATORS| :: Usable(k, upostag, xpostag)
  {
    var separator := FindSeparator(upostag, xpostag);
    ok := separator < |SEPARATORS|;
  }

  function Tag(c: byte, upostag: Bytes, xpostag: Bytes, feats: Bytes, useXpostag: bool, useFeats: bool): Bytes {
    [c] + upostag +
    (if useXpostag || useFeats then
       [c] + (if useXpostag then xpostag else []) + (if useFeats then [c] + feats else [])
     else [])
  }

  /** combine_tag. Without a usable separator it falls back to the first one. */
  method CombineTag(upostag: Bytes, xpostag: Bytes, feats: Bytes, useXpostag: bool,
      useFeats: bool) returns (combined: Bytes)
    ensures exists k | 0 <= k < |SEPARATORS| ::
              && ((exists j | 0 <= j < |SEPARATORS| :: Usable(j, upostag, xpostag)) ==> Usable(k, upostag, xpostag))
              && combined == Tag(SEPARATORS[k], upostag, xpostag, feats, useXpostag, useFeats)
  {
    var separator := FindSeparator(upostag, xpostag);
    if separator >= |SEPARATORS| { separator := 0; }
    var c := SEPARATORS[separator];
    combined := [c];
    combined := combined + upostag;
    if useXpostag || useFeats {
      combined := combined + [c];
      if useXpostag { combined := combined + xpostag; }
      if useFeats { combined := combined + [c]; }
      if useFeats { combined := combined + feats; }
    }
    assert combined == Tag(c, upostag, xpostag, feats, useXpostag, useFeats);
  }

  datatype Parts = Parts(upostag: Bytes, xpostag: Bytes, feats: Bytes)

  function Min(a: nat, b: nat): nat { if a < b then a else b }

  /** What stands before the first c, and what stands after it. */
  function Before(s: Bytes, c: byte): Bytes { s[..FindFrom(s, c, 0)] }

  function After(s: Bytes, c: byte): Bytes { s[Min(FindFrom(s, c, 0) + 1, |s|)..] }

  /** How fill_word_analysis cuts a tag at its first character. */
  function TagParts(tag: Bytes): Parts {
    if tag == [] then Parts([], [], [])
    else
      var c, rest := tag[0], tag[1..];
      Parts(Before(rest, c), Before(After(rest, c), c), After(After(rest, c), c))
  }

  lemma {:induction false} CutAt(a: Bytes, c: byte, rest: Bytes)
    requires c !in a
    ensures Before(a + ([c] + rest), c) == a && After(a + ([c] + rest), c) == rest
    ensures Before(a, c) == a && After(a, c) == []
  {
    FindAfter(a, c, rest, 0);
    assert a + [c] + rest == a + ([c] + rest);
  }

  /** Whenever a separator is usable, cutting the combined tag gives UPOSTAG back, and XPOSTAG and FEATS
      if they were combined, for every setting of the two flags. */
  lemma {:induction false} TagRoundTrip(k: nat, upostag: Bytes, xpostag: Bytes, feats: Bytes, useXpostag: bool,
      useFeats: bool)
    requires k < |SEPARATORS| && Usable(k, upostag, xpostag)
    ensures TagParts(Tag(SEPARATORS[k], upostag, xpostag, feats, useXpostag, useFeats)) ==
            Parts(upostag, if useXpostag then xpostag else [], if useFeats then feats else [])
  {
    if useXpostag || useFeats {
      LongTag(SEPARATORS[k], upostag, if useXpostag then xpostag else [], if useFeats then feats else [],
              useXpostag, useFeats);
    } else {
      ShortTag(SEPARATORS[k], upostag);
    }
  }

  lemma {:induction false} ShortTag(c: byte, upostag: Bytes)
    requires c !in upostag
    ensures TagParts([c] + upostag + []) == Parts(upostag, [], [])
  {
    assert ([c] + upostag + [])[1..] == upostag;
    CutAt(upostag, c, []);
    CutAt([], c, []);
  }

  lemma {:induction false} LongTag(c: byte, upostag: Bytes, x: Bytes, f: Bytes, useXpostag: bool, useFeats: bool)
    requires c !in upostag && c !in x && (useXpostag || useFeats) && (useXpostag || x == []) && (useFeats || f == [])
    ensures TagParts(Tag(c, upostag, x, f, useXpostag, useFeats)) == Parts(upostag, x, f)
  {
    var tail := x + if useFeats then [c] + f else [];
    assert Tag(c, upostag, x, f, useXpostag, useFeats)[1..] == upostag + ([c] + tail);
    CutAt(upostag, c, tail);
    CutAt(x, c, f);
    assert !useFeats ==> tail == x;
  }

  lemma {:induction false} FindShift(s: Bytes, c: byte, from: nat)
    requires from <= |s|
    ensures FindFrom(s, c, from) == from + FindFrom(s[from..], c, 0)
  {
    var k, m := FindFrom(s, c, from), FindFrom(s[from..], c, 0);
    FindNone(s, c, from);
    FindNone(s[from..], c, 0);
    assert from + m < |s| ==> s[from..][m] == s[from + m];
    assert k < |s| ==> s[from..][k - from] == s[k];
  }

  /** The cut in running indices over the whole tag. */
  lemma {:induction false} CutFrom(tag: Bytes, c: byte, start: nat)
    requires start <= |tag|
    ensures var end := FindFrom(tag, c, start);
            start <= end <= |tag| &&
            tag[start..end] == Before(tag[start..], c) && tag[Min(end + 1, |tag|)..] == After(tag[start..], c)
  {
    FindShift(tag, c, start);
    var k := FindFrom(tag[start..], c, 0);
    TakeOfDrop(tag, start, k);
    DropOfDrop(tag, start, Min(k + 1, |tag| - start));
  }

  lemma {:induction false} TakeOfDrop(s: Bytes, a: nat, k: nat)
    requires a + k <= |s|
    ensures s[a..][..k] == s[a..a + k]
  {
  }

  lemma {:induction false} DropOfDrop(s: Bytes, a: nat, k: nat)
    requires a + k <= |s|
    ensures s[a..][k..] == s[a + k..]
  {
  }

  /** XPOSTAG and FEATS are what the next cut makes of the tag from here on. */
  ghost predicate HoldsRest(tag: Bytes, c: byte, from: nat) {
    from <= |tag| && Before(tag[from..], c) == TagParts(tag).xpostag && After(tag[from..], c) == TagParts(tag).feats
  }

  /** The first cut of fill_word_analysis, and what the second one starts from. */
  lemma {:induction false} FirstCut(tag: Bytes, c: byte, start: nat, end: nat)
    requires c == (if tag == [] then 0 else tag[0]) && start == Min(1, |tag|) && end == FindFrom(tag, c, 1)
    ensures start <= end <= |tag| && tag[start..end] == TagParts(tag).upostag
    ensures HoldsRest(tag, c, Min(end + 1, |tag|))
  {
    if tag != [] { CutFrom(tag, c, 1); }
  }

  /** A word of which the analysis fills the lemma and the tags, as the flags of the tagger say. */
  class AnalyzedWord {
    const form: Bytes
    var lem: Bytes
    var upostag: Bytes
    var xpostag: Bytes
    var feats: Bytes

    constructor (form: Bytes)
      ensures this.form == form && lem == upostag == xpostag == feats == []
    {
      this.form, lem, upostag, xpostag, feats := form, [], [], [], [];
    }

    /** The tag part of fill_word_analysis, with its running indices. */
    method FillTags(tag: Bytes, useUpostag: bool, useXpostag: bool, useFeats: bool)
      modifies this`upostag, this`xpostag, this`feats
      ensures upostag == if useUpostag then TagParts(tag).upostag else old(upostag)
      ensures xpostag == if useXpostag then TagParts(tag).xpostag else old(xpostag)
      ensures feats == if useFeats then TagParts(tag).feats else old(feats)
    {
      var separator: byte := if tag == [] then 0 else tag[0];
      FirstCut(tag, separator, Min(1, |tag|), FindFrom(tag, separator, 1));
      if !useUpostag && !useXpostag && !useFeats { return; }
      var start := Min(1, |tag|);
      var end := FindFrom(tag, separator, 1);
      if useUpostag { upostag := tag[start..end]; }
      if useXpostag || useFeats { FillRest(tag, separator, Min(end + 1, |tag|), useXpostag, useFeats); }
    }

    /** ... and the cut of what follows UPOSTAG. */
    method FillRest(tag: Bytes, separator: byte, from: nat, useXpostag: bool, useFeats: bool)
      requires from <= |tag|
      modifies this`xpostag, this`feats
      ensures xpostag == if useXpostag then Before(tag[from..], separator) else old(xpostag)
      ensures feats == if useFeats then After(tag[from..], separator) else old(feats)
    {
      var start := from;
      var end := FindFrom(tag, separator, start);
      CutFrom(tag, separator, start);
      if useXpostag { xpostag := tag[start..end]; }
      if !useFeats { return; }
      start := Min(end + 1, |tag|);
      feats := tag[start..];
    }

    /** The lemma part, for encodings 1 and 2 in version 3. */
    method FillLemma(analysis: Bytes, encoding: nat)
      modifies this`lem
      ensures lem == if encoding == 2 then DecodedLemma(analysis, form)
                     else RestoreSpaces(if encoding == 1 then analysis else old(lem))
    {
      if encoding == 1 {
        lem := analysis;
      } else if encoding == 2 {
        lem := analysis;
        if analysis != [] && analysis[0] == TILDE {
          var end := FindFrom(analysis, TILDE, 1);
          if end < |analysis| {
            lem := NormalizeFormLoop(form, 3);
            if analysis[end + 1..] == lem {
              lem := analysis[1..end];
            } else {
              lem := analysis;
            }
          }
        }
      }
      lem := RestoreSpacesLoop(lem);
    }
  }

  // ---------- normalization of forms ----------

  /** What the normalization makes of a code point; None when it removes it. */
  function NormalCode(chr: nat, version: nat): (r: seq<nat>)
    ensures |r| <= 1
  {
    if chr == 0x640 || 0x64B <= chr <= 0x657 || chr == 0x670 then []
    else if chr == 0x622 || chr == 0x623 || chr == 0x625 || chr == 0x671 then [0x627]
    else if chr == 0x624 then [0x648]
    else if chr == 0x626 || chr == 0x6CC then [0x64A]
    else if chr == 0x6A9 || chr == 0x6AA then [0x643]
    else if chr == 0x20 && version == 2 then [0x01]
    else if chr == 0x20 && version >= 3 then [0xA0]
    else [chr]
  }

  function NormalCodes(cs: seq<nat>, version: nat): seq<nat> {
    if cs == [] then [] else NormalCode(cs[0], version) + NormalCodes(cs[1..], version)
  }

  function NormalizeForm(form: Bytes, version: nat): Bytes {
    if version <= 1 then form
    else
      var output := EncodeAll(NormalCodes(DecodeAll(form), version));
      if output == [] && form != [] then Encode(First(form)) else output
  }

  lemma {:induction false} NormalCodesCodable(cs: seq<nat>, version: nat)
    requires Codable(cs)
    ensures Codable(NormalCodes(cs, version))
    decreases |cs|
  {
    if cs != [] { NormalCodesCodable(cs[1..], version); }
  }

  lemma {:induction false} NormalCodesFixed(cs: seq<nat>, version: nat)
    requires version >= 2
    ensures NormalCodes(NormalCodes(cs, version), version) == NormalCodes(cs, version)
    decreases |cs|
  {
    if cs != [] {
      NormalCodesFixed(cs[1..], version);
      var rest := NormalCodes(cs[1..], version);
      if NormalCode(cs[0], version) == [] {
        assert NormalCodes(cs, version) == rest;
      } else {
        var c := NormalCode(cs[0], version)[0];
        assert NormalCode(c, version) == [c];
        assert NormalCodes(cs, version) == [c] + rest && ([c] + rest)[1..] == rest;
      }
    }
  }

  /** Normalizing never empties a form, and normalizing twice is normalizing once. */
  lemma {:induction false} NormalizeIdempotent(form: Bytes, version: nat)
    ensures form != [] ==> NormalizeForm(form, version) != []
    ensures NormalizeForm(NormalizeForm(form, version), version) == NormalizeForm(form, version)
  {
    if version >= 2 && form != [] {
      var cs := DecodeAll(form);
      var normal := NormalCodes(cs, version);
      NormalCodesCodable(cs, version);
      NormalCodesFixed(cs, version);
      DecodeEncodeAll(normal);
      if EncodeAll(normal) == [] {
        var c := First(form);
        assert cs == [c] + cs[1..];
        assert normal == [] && NormalCode(c, version) == [];
        DecodeFront(c, []);
        assert Encode(c) + [] == Encode(c);
        assert NormalCodes([c], version) == [];
      }
    }
  }

  /** The bytes that are put out for one code point. */
  function NormalBytes(chr: nat, version: nat): Bytes {
    var code := NormalCode(chr, version);
    if code == [] then [] else Encode(code[0])
  }

  lemma {:induction false} NormalStep(s: Bytes, version: nat)
    requires s != []
    ensures EncodeAll(NormalCodes(DecodeAll(s), version)) ==
            NormalBytes(First(s), version) + EncodeAll(NormalCodes(DecodeAll(s[Step(s).0..]), version))
  {
    var code, tail := NormalCode(First(s), version), NormalCodes(DecodeAll(s[Step(s).0..]), version);
    assert DecodeAll(s)[1..] == DecodeAll(s[Step(s).0..]);
    assert NormalCodes(DecodeAll(s), version) == code + tail;
    if code == [] {
      assert code + tail == tail && [] + EncodeAll(tail) == EncodeAll(tail);
    } else {
      assert (code + tail)[1..] == tail;
    }
  }

  /** What is put out and what comes of the rest of the form make up everything. */
  ghost predicate Normalizing(form: Bytes, version: nat, output: Bytes, pos: nat, all: Bytes) {
    pos <= |form| && output + EncodeAll(NormalCodes(DecodeAll(form[pos..]), version)) == all
  }

  lemma {:induction false} NormalizingNext(form: Bytes, version: nat, output: Bytes, pos: nat, all: Bytes, chr: nat,
      next: nat)
    requires pos < |form| && Normalizing(form, version, output, pos, all)
    requires chr == First(form[pos..]) && next == pos + Step(form[pos..]).0
    ensures Normalizing(form, version, output + NormalBytes(chr, version), next, all)
  {
    var s := form[pos..];
    assert s[Step(s).0..] == form[next..];
    NormalStep(s, version);
    Assoc(output, NormalBytes(chr, version), EncodeAll(NormalCodes(DecodeAll(form[next..]), version)));
  }

  /** The loop over the code points. */
  method NormalizeFormLoop(form: Bytes, version: nat) returns (output: Bytes)
    ensures output == NormalizeForm(form, version)
  {
    if version <= 1 { return form; }
    output := [];
    var pos, len := 0, |form|;
    ghost var all := EncodeAll(NormalCodes(DecodeAll(form), version));
    assert form[0..] == form && [] + all == all;
    while len > 0
      invariant 0 <= pos && 0 <= len && pos + len == |form| && Normalizing(form, version, output, pos, all)
      decreases len
    {
      ghost var from := pos;
      assert form[pos..pos + len] == form[pos..];
      var chr;
      chr, pos, len := Decode(form, pos, len);
      NormalizingNext(form, version, output, from, all, chr, pos);
      output := output + NormalBytes(chr, version);
    }
    assert output + [] == output;
    if output == [] && form != [] {
      var first, _, _ := Decode(form, 0, |form|);
      assert form[0..|form|] == form;
      output := Encode(first);
    }
  }

  // ---------- spaces of lemmas ----------

  /** normalize_lemma since version 3: every space becomes a no-break space. */
  function NormalizeLemma(lem: Bytes): Bytes {
    if lem == [] then []
    else (if lem[0] == SPACE then Encode(0xA0) else [lem[0]]) + NormalizeLemma(lem[1..])
  }

  /** The decoder's replacement of no-break spaces by spaces. */
  function RestoreSpaces(s: Bytes): Bytes {
    if |s| < 2 then s
    else if s[0] == C2 && s[1] == A0 then [SPACE] + RestoreSpaces(s[2..])
    else [s[0]] + RestoreSpaces(s[1..])
  }

  predicate HasNbsp(s: Bytes) { exists i | 0 <= i < |s| - 1 :: s[i] == C2 && s[i + 1] == A0 }

  /** The in-place loop of the replacement. */
  method RestoreSpacesLoop(s: Bytes) returns (r: Bytes)
    ensures r == RestoreSpaces(s)
  {
    r := s;
    var i := 0;
    while i + 1 < |r|
      invariant 0 <= i <= |r|
      invariant r[..i] + RestoreSpaces(r[i..]) == RestoreSpaces(s)
      decreases |r| - i
    {
      ghost var done, tail := r[..i], r[i..];
      if r[i] == C2 && r[i + 1] == A0 {
        r := r[..i] + [SPACE] + r[i + 2..];
        assert r[i + 1..] == tail[2..];
        assert r[..i + 1] == done + [SPACE];
        Assoc(done, [SPACE], RestoreSpaces(tail[2..]));
      } else {
        assert r[i + 1..] == tail[1..];
        assert r[..i + 1] == done + [r[i]];
        Assoc(done, [r[i]], RestoreSpaces(tail[1..]));
      }
      i := i + 1;
    }
    assert r[..i] + r[i..] == r;
  }

  lemma {:induction false} NbspTail(s: Bytes)
    requires s != [] && !HasNbsp(s)
    ensures !HasNbsp(s[1..])
  {
    var t := s[1..];
    forall i | 0 <= i < |t| - 1 ensures !(t[i] == C2 && t[i + 1] == A0) {
      assert t[i] == s[i + 1] && t[i + 1] == s[i + 1 + 1];
    }
  }

  lemma {:induction false} NormalizeFront(lem: Bytes)
    requires lem != []
    ensures NormalizeLemma(lem) != []
    ensures NormalizeLemma(lem)[0] == if lem[0] == SPACE then C2 else lem[0]
  {
    assert Encode(0xA0) == [C2, A0];
  }

  /** A lemma without no-break spaces survives: its spaces go out as no-break spaces and come back. */
  lemma {:induction false} SpacesRoundTrip(lem: Bytes)
    requires !HasNbsp(lem)
    ensures RestoreSpaces(NormalizeLemma(lem)) == lem
    decreases |lem|
  {
    if lem != [] {
      NbspTail(lem);
      SpacesRoundTrip(lem[1..]);
      var rest := NormalizeLemma(lem[1..]);
      assert Encode(0xA0) == [C2, A0];
      if lem[0] == SPACE {
        assert ([C2, A0] + rest)[2..] == rest;
      } else {
        var s := [lem[0]] + rest;
        assert s[1..] == rest;
        if rest != [] && lem[0] == C2 {
          NormalizeFront(lem[1..]);
          assert lem[1..][0] == lem[1];
        }
      }
      assert lem == [lem[0]] + lem[1..];
    }
  }

  /** What comes back never holds a no-break space. */
  lemma {:induction false} RestoredHasNone(s: Bytes)
    ensures !HasNbsp(RestoreSpaces(s))
    ensures s != [] ==> RestoreSpaces(s) != [] && (RestoreSpaces(s)[0] == s[0] || RestoreSpaces(s)[0] == SPACE)
    decreases |s|
  {
    if |s| >= 2 {
      var nbsp := s[0] == C2 && s[1] == A0;
      var rest := RestoreSpaces(s[if nbsp then 2 else 1..]);
      RestoredHasNone(s[if nbsp then 2 else 1..]);
      var r := RestoreSpaces(s);
      assert r[1..] == rest;
      forall i | 0 <= i < |r| - 1 ensures !(r[i] == C2 && r[i + 1] == A0) {
        if i > 0 { assert r[i] == rest[i - 1] && r[i + 1] == rest[i - 1 + 1]; }
      }
    }
  }

  // ---------- lemmas ----------

  /** combine_lemma with encoding 2 in version 3; `flat` says that the lemma is among the flat ones. */
  function CombineLemma(lem: Bytes, form: Bytes, flat: bool): Bytes {
    var normal := NormalizeForm(form, 3);
    if lem == [] then [TILDE, TILDE] + normal
    else if lem == [UNDERSCORE] then [TILDE, UNDERSCORE, TILDE] + normal
    else if flat then [TILDE] + NormalizeLemma(lem) + [TILDE] + normal
    else NormalizeLemma(lem)
  }

  /** The replacement part of fill_word_analysis with encoding 2: ~replacement~normalized-form. */
  function Replacement(analysis: Bytes, form: Bytes): Bytes {
    if analysis != [] && analysis[0] == TILDE && FindFrom(analysis, TILDE, 1) < |analysis| then
      var end := FindFrom(analysis, TILDE, 1);
      if analysis[end + 1..] == NormalizeForm(form, 3) then analysis[1..end] else analysis
    else analysis
  }

  function DecodedLemma(analysis: Bytes, form: Bytes): Bytes { RestoreSpaces(Replacement(analysis, form)) }

  /** The lemma, normalized, reads like a replacement of its own form. */
  predicate LooksReplaced(lem: Bytes, form: Bytes) {
    var c := NormalizeLemma(lem);
    && c != [] && c[0] == TILDE && FindFrom(c, TILDE, 1) < |c|
    && c[FindFrom(c, TILDE, 1) + 1..] == NormalizeForm(form, 3)
  }

  lemma {:induction false} ReplacementOf(x: Bytes, form: Bytes)
    requires TILDE !in x
    ensures Replacement([TILDE] + x + [TILDE] + NormalizeForm(form, 3), form) == x
  {
    var normal := NormalizeForm(form, 3);
    var a := [TILDE] + x;
    assert forall i | 1 <= i < |a| :: a[i] == x[i - 1];
    FindAfter(a, TILDE, normal, 1);
    var s := a + [TILDE] + normal;
    assert s[1..|a|] == x && s[|a| + 1..] == normal;
  }

  lemma {:induction false} TildeKept(lem: Bytes)
    ensures TILDE in NormalizeLemma(lem) <==> TILDE in lem
    ensures |NormalizeLemma(lem)| >= |lem|
    decreases |lem|
  {
    if lem != [] {
      TildeKept(lem[1..]);
      assert Encode(0xA0) == [C2, A0];
      assert lem == [lem[0]] + lem[1..];
    }
  }

  /** A flat lemma with a tilde in it is not cut out again: the tag comes back whole. */
  lemma {:induction false} FlatWithTilde(x: Bytes, form: Bytes)
    requires TILDE in x
    ensures var s := [TILDE] + x + [TILDE] + NormalizeForm(form, 3); Replacement(s, form) == s
  {
    var normal := NormalizeForm(form, 3);
    var s := [TILDE] + x + [TILDE] + normal;
    var k :| 0 <= k < |x| && x[k] == TILDE;
    assert s[k + 1] == TILDE;
    FindNone(s, TILDE, 1);
    var end := FindFrom(s, TILDE, 1);
    assert end <= k + 1;
    assert |s[end + 1..]| > |normal|;
  }

  lemma {:induction false} RestoreLength(s: Bytes, a: Bytes, b: Bytes)
    requires s == [TILDE] + a + [TILDE] + b
    ensures |RestoreSpaces(s)| >= |RestoreSpaces(a)| + 2
  {
    RestoreTilde(a, b);
    assert s == [TILDE] + (a + [TILDE] + b);
    assert s[1..] == a + [TILDE] + b;
    assert |s| >= 2;
  }

  lemma {:induction false} RestoreTilde(a: Bytes, b: Bytes)
    ensures |RestoreSpaces(a + [TILDE] + b)| >= |RestoreSpaces(a)| + 1
    decreases |a|
  {
    var s := a + [TILDE] + b;
    if a == [] {
      assert s == [TILDE] + b;
    } else {
      assert s[0] == a[0] && |s| >= 2;
      if |a| >= 2 && a[0] == C2 && a[1] == A0 {
        assert s[1] == a[1] && s[2..] == a[2..] + [TILDE] + b;
        RestoreTilde(a[2..], b);
      } else {
        assert s[1..] == a[1..] + [TILDE] + b;
        assert |a| == 1 ==> s[1] == TILDE;
        assert |a| >= 2 ==> s[1] == a[1];
        RestoreTilde(a[1..], b);
      }
    }
  }

  /** The condition under which a lemma comes back: it holds no no-break space; a flat lemma other than the empty
      one and "_" has no tilde; and a lemma that is not flat does not look like a replacement. */
  predicate LemmaSurvives(lem: Bytes, form: Bytes, flat: bool) {
    && !HasNbsp(lem)
    && (lem == [] || lem == [UNDERSCORE] || if flat then TILDE !in lem else !LooksReplaced(lem, form))
  }

  /** The decoded lemma is the original one exactly under that condition. */
  lemma {:induction false} LemmaRoundTrip(lem: Bytes, form: Bytes, flat: bool)
    ensures DecodedLemma(CombineLemma(lem, form, flat), form) == lem <==> LemmaSurvives(lem, form, flat)
  {
    var combined := CombineLemma(lem, form, flat);
    RestoredHasNone(Replacement(combined, form));
    if !HasNbsp(lem) {
      SpacesRoundTrip(lem);
      if lem == [] || lem == [UNDERSCORE] {
        ShortLemma(lem, form, flat);
      } else if flat {
        FlatLemma(lem, form);
      } else {
        PlainLemma(lem, form);
      }
    }
  }

  /** The flat lemma a~b does not come back, whatever the form. */
  lemma {:induction false} TildeLost(form: Bytes)
    ensures var lem: Bytes := [0x61, TILDE, 0x62]; DecodedLemma(CombineLemma(lem, form, true), form) != lem
  {
    var lem: Bytes := [0x61, TILDE, 0x62];
    assert lem[1] == TILDE;
    LemmaRoundTrip(lem, form, true);
  }

  lemma {:induction false} ShortLemma(lem: Bytes, form: Bytes, flat: bool)
    requires lem == [] || lem == [UNDERSCORE]
    ensures DecodedLemma(CombineLemma(lem, form, flat), form) == lem
  {
    var normal := NormalizeForm(form, 3);
    ReplacementOf(lem, form);
    assert [TILDE] + lem + [TILDE] + normal == CombineLemma(lem, form, flat);
  }

  lemma {:induction false} FlatLemma(lem: Bytes, form: Bytes)
    requires !HasNbsp(lem) && lem != [] && lem != [UNDERSCORE]
    ensures DecodedLemma(CombineLemma(lem, form, true), form) == lem <==> TILDE !in lem
  {
    var x, normal := NormalizeLemma(lem), NormalizeForm(form, 3);
    var s := [TILDE] + x + [TILDE] + normal;
    SpacesRoundTrip(lem);
    TildeKept(lem);
    if TILDE in lem {
      FlatWithTilde(x, form);
      RestoreLength(s, x, normal);
    } else {
      ReplacementOf(x, form);
    }
  }

  lemma {:induction false} PlainReplaced(c: Bytes, form: Bytes)
    requires c != [] && c[0] == TILDE && FindFrom(c, TILDE, 1) < |c|
    requires c[FindFrom(c, TILDE, 1) + 1..] == NormalizeForm(form, 3)
    ensures |DecodedLemma(c, form)| + 2 <= |RestoreSpaces(c)|
  {
    var end := FindFrom(c, TILDE, 1);
    var x, b := c[1..end], c[end + 1..];
    assert c == [TILDE] + x + [TILDE] + b;
    RestoreLength(c, x, b);
  }

  lemma {:induction false} PlainLemma(lem: Bytes, form: Bytes)
    requires !HasNbsp(lem) && lem != [] && lem != [UNDERSCORE]
    ensures DecodedLemma(CombineLemma(lem, form, false), form) == lem <==> !LooksReplaced(lem, form)
  {
    var c := NormalizeLemma(lem);
    assert CombineLemma(lem, form, false) == c;
    SpacesRoundTrip(lem);
    if LooksReplaced(lem, form) {
      PlainReplaced(c, form);
    } else {
      assert Replacement(c, form) == c;
    }
  }
}
