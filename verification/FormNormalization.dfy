/** Which forms src/model/model_morphodita_parsito.cpp:420-490 normalizes alike: those with the same letters, up to
    vowel signs and letters that are written in several ways. */
module FormNormalization {
  import opened Utf8
  import opened TagLemmaCodec

  /** Signs that are removed: the tatweel, the vowel signs and the superscript alef. */
  predicate IsMark(c: nat) { c == 0x640 || 0x64B <= c <= 0x657 || c == 0x670 }

  const ALEFS: set<nat> := {0x627, 0x622, 0x623, 0x625, 0x671}
  const WAWS: set<nat> := {0x648, 0x624}
  const YEHS: set<nat> := {0x64A, 0x626, 0x6CC}
  const KAFS: set<nat> := {0x643, 0x6A9, 0x6AA}

  /** The space and what stands for it. */
  predicate SpaceLike(c: nat, version: nat) { c == 0x20 || c == if version == 2 then 0x01 else 0xA0 }

  predicate Alike(c: nat, d: nat, version: nat) {
    || c == d || (c in ALEFS && d in ALEFS) || (c in WAWS && d in WAWS) || (c in YEHS && d in YEHS)
    || (c in KAFS && d in KAFS) || (SpaceLike(c, version) && SpaceLike(d, version))
  }

  function Letters(cs: seq<nat>): seq<nat> {
    if cs == [] then [] else (if IsMark(cs[0]) then [] else [cs[0]]) + Letters(cs[1..])
  }

  predicate AllAlike(a: seq<nat>, b: seq<nat>, version: nat) {
    |a| == |b| && forall k | 0 <= k < |a| :: Alike(a[k], b[k], version)
  }

  /** The one of each class that all others become. */
  predicate Standard(c: nat, version: nat) {
    !IsMark(c) && (c in ALEFS ==> c == 0x627) && (c in WAWS ==> c == 0x648) && (c in YEHS ==> c == 0x64A)
    && (c in KAFS ==> c == 0x643) && c != 0x20
  }

  lemma {:induction false} CodeMeans(c: nat, version: nat)
    requires version >= 2
    ensures if IsMark(c) then NormalCode(c, version) == []
            else
              && |NormalCode(c, version)| == 1
              && Alike(c, NormalCode(c, version)[0], version) && Standard(NormalCode(c, version)[0], version)
  {
  }

  lemma {:induction false} AlikeStandard(c: nat, d: nat, e: nat, version: nat)
    requires version >= 2 && Standard(d, version) && Standard(e, version)
    requires Alike(c, d, version) && Alike(c, e, version)
    ensures d == e
  {
  }

  lemma {:induction false} AlikeThrough(c: nat, d: nat, e: nat, version: nat)
    requires version >= 2 && Alike(c, e, version) && Alike(d, e, version)
    ensures Alike(c, d, version)
  {
  }

  /** Normalizing removes the marks and replaces every letter by the standard one of its class. */
  lemma {:induction false} CodesMean(cs: seq<nat>, version: nat)
    requires version >= 2
    ensures AllAlike(Letters(cs), NormalCodes(cs, version), version)
    ensures forall k | 0 <= k < |NormalCodes(cs, version)| :: Standard(NormalCodes(cs, version)[k], version)
    decreases |cs|
  {
    if cs != [] {
      CodeMeans(cs[0], version);
      CodesMean(cs[1..], version);
      var rest := NormalCodes(cs[1..], version);
      if IsMark(cs[0]) {
        assert NormalCodes(cs, version) == rest && Letters(cs) == Letters(cs[1..]);
      } else {
        var n := NormalCode(cs[0], version)[0];
        assert NormalCodes(cs, version) == [n] + rest && Letters(cs) == [cs[0]] + Letters(cs[1..]);
      }
    }
  }

  lemma {:induction false} CodesAlike(cs: seq<nat>, ds: seq<nat>, version: nat)
    requires version >= 2
    ensures NormalCodes(cs, version) == NormalCodes(ds, version) <==> AllAlike(Letters(cs), Letters(ds), version)
  {
    CodesMean(cs, version);
    CodesMean(ds, version);
    var a, b, m, n := Letters(cs), Letters(ds), NormalCodes(cs, version), NormalCodes(ds, version);
    if m == n {
      forall k | 0 <= k < |a| ensures Alike(a[k], b[k], version) { AlikeThrough(a[k], b[k], m[k], version); }
    }
    if AllAlike(a, b, version) {
      forall k | 0 <= k < |m| ensures m[k] == n[k] {
        AlikeThrough(b[k], m[k], a[k], version);
        AlikeStandard(b[k], m[k], n[k], version);
      }
    }
  }

  /** Two forms are normalized alike if and only if their letters are alike, one by one, and, where there are none at
      all, both are empty or start with the same mark. */
  lemma {:induction false} FormsAlike(f: Bytes, g: Bytes, version: nat)
    requires version >= 2
    ensures NormalizeForm(f, version) == NormalizeForm(g, version) <==>
              && AllAlike(Letters(DecodeAll(f)), Letters(DecodeAll(g)), version)
              && (Letters(DecodeAll(f)) == [] ==>
                    (f == [] <==> g == []) && (f != [] && g != [] ==> First(f) == First(g)))
  {
    CodesAlike(DecodeAll(f), DecodeAll(g), version);
    FormMeans(f, version);
    FormMeans(g, version);
    EncodingsDiffer(NormalOf(f, version), NormalOf(g, version));
    if f != [] && g != [] && Letters(DecodeAll(f)) == Letters(DecodeAll(g)) == [] { FirstIsMark(f); FirstIsMark(g); }
    MarksApart(f, g, version);
    MarksApart(g, f, version);
  }

  /** The code points of the normalized form. */
  function NormalOf(form: Bytes, version: nat): seq<nat> {
    var codes := NormalCodes(DecodeAll(form), version);
    if codes == [] && form != [] then [First(form)] else codes
  }

  lemma {:induction false} FormMeans(form: Bytes, version: nat)
    requires version >= 2
    ensures NormalizeForm(form, version) == EncodeAll(NormalOf(form, version)) && Codable(NormalOf(form, version))
    ensures NormalCodes(DecodeAll(form), version) == [] <==> Letters(DecodeAll(form)) == []
  {
    var codes := NormalCodes(DecodeAll(form), version);
    NormalCodesCodable(DecodeAll(form), version);
    CodesMean(DecodeAll(form), version);
    NoneEncoded(codes);
    if form != [] { OneEncoded(First(form)); }
  }

  lemma {:induction false} NoneEncoded(codes: seq<nat>)
    ensures EncodeAll(codes) == [] <==> codes == []
  {
  }

  lemma {:induction false} OneEncoded(c: nat)
    ensures EncodeAll([c]) == Encode(c)
  {
    assert [c][1..] == [] && Encode(c) + [] == Encode(c);
  }

  lemma {:induction false} EncodingsDiffer(a: seq<nat>, b: seq<nat>)
    requires Codable(a) && Codable(b)
    ensures EncodeAll(a) == EncodeAll(b) <==> a == b
  {
    if EncodeAll(a) == EncodeAll(b) { EncodingInjective(a, b); }
  }

  lemma {:induction false} FirstIsMark(form: Bytes)
    requires form != [] && Letters(DecodeAll(form)) == []
    ensures IsMark(First(form))
  {
    assert DecodeAll(form)[0] == First(form);
  }

  /** A mark that is left alone is no normalized letter. */
  lemma {:induction false} MarksApart(f: Bytes, g: Bytes, version: nat)
    requires version >= 2
    ensures Letters(DecodeAll(f)) == [] && f != [] && Letters(DecodeAll(g)) != [] ==>
              NormalOf(f, version) != NormalOf(g, version)
  {
    CodesMean(DecodeAll(f), version);
    CodesMean(DecodeAll(g), version);
    if Letters(DecodeAll(f)) == [] && f != [] && Letters(DecodeAll(g)) != [] {
      FirstIsMark(f);
      assert Standard(NormalOf(g, version)[0], version);
    }
  }
}
