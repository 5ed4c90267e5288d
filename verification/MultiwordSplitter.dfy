/** The multiword splitter, src/tokenizer/multiword_splitter.cpp:21-93: a full-rule lookup, then a walk over the
    prefix-closed suffix rules with early exit. */
module MultiwordSplitter {
  import opened Sentences
  import opened Sequences
  import opened Utf8
  import opened BinaryCodec
  import opened SplitterRules

  // Case tables are parameters: `lower` and `upper` map code points, `isUpper` and `isOtherLetter` stand for the upper
  // or title case and the other letter categories.

  datatype Piece = Piece(form: Bytes, misc: Bytes)

  datatype Range = Range(idFirst: int, idLast: int, form: Bytes, misc: Bytes)

  /** The words and multiword ranges of the sentence under construction, the root at index 0. */
  class Sink {
    var words: seq<Piece>
    var ranges: seq<Range>

    constructor ()
      ensures words == [Piece([], [])] && ranges == []
    {
      words, ranges := [Piece([], [])], [];
    }
  }

  datatype Tables = Tables(lower: nat -> nat, upper: nat -> nat, isUpper: nat -> bool, isOtherLetter: nat -> bool)

  datatype Casing = UpperFirst | UpperAll | UpperOther

  function CasingOf(t: Tables, token: Bytes): Casing {
    var cs := DecodeAll(token);
    if !t.isUpper(if token == [] then 0 else First(token)) then UpperOther
    else if exists i | 0 <= i < |cs| :: t.isOtherLetter(cs[i]) then UpperFirst
    else UpperAll
  }

  // ---------- the longest match ----------

  /** The first l bytes of the reversed token are a rule with words, and at least one byte remains. */
  predicate IsMatch(rules: Rules, buffer: Bytes, l: nat) {
    1 <= l < |buffer| && buffer[..l] in rules && rules[buffer[..l]] != []
  }

  /** The longest match, 0 if there is none. */
  ghost predicate IsLongest(rules: Rules, buffer: Bytes, best: nat) {
    && (best > 0 ==> IsMatch(rules, buffer, best))
    && forall l: nat | IsMatch(rules, buffer, l) :: l <= best
  }

  /** A match at which the walk arrives: all shorter prefixes are keys, too. */
  ghost predicate IsReached(rules: Rules, buffer: Bytes, l: nat) {
    IsMatch(rules, buffer, l) && forall n | 1 <= n < l :: buffer[..n] in rules
  }

  ghost predicate IsLongestReached(rules: Rules, buffer: Bytes, best: nat) {
    && (best > 0 ==> IsReached(rules, buffer, best))
    && forall l: nat | IsReached(rules, buffer, l) :: l <= best
  }

  /** With prefix-closed rules the walk arrives at every match, and its early exit loses nothing. */
  lemma {:induction false} ClosedReaches(rules: Rules, buffer: Bytes, best: nat)
    requires PrefixClosed(rules) && IsLongestReached(rules, buffer, best)
    ensures IsLongest(rules, buffer, best)
  {
    forall l: nat | IsMatch(rules, buffer, l) ensures l <= best {
      forall n | 1 <= n < l ensures buffer[..n] in rules {
        assert buffer[..l][..n] == buffer[..n];
      }
      assert IsReached(rules, buffer, l);
    }
  }

  /** Without the closure the walk stops short: it returns 0 here, and a rule of two bytes matches. */
  lemma {:induction false} ClosureNeeded()
    ensures var rules: Rules := map[[1, 2] := [[0x61]]];
            && IsLongestReached(rules, [1, 2, 3], 0) && IsMatch(rules, [1, 2, 3], 2)
            && !IsLongest(rules, [1, 2, 3], 0)
  {
    var rules: Rules, buffer: Bytes := map[[1, 2] := [[0x61]]], [1, 2, 3];
    assert buffer[..1] == [1] && buffer[..2] == [1, 2] && [1] !in rules;
    assert IsMatch(rules, buffer, 2);
  }

  /** The walk: extend the suffix while it is in the rules, remembering the last one that has words. */
  method SearchSuffixes(rules: Rules, buffer: Bytes) returns (best: nat)
    ensures IsLongestReached(rules, buffer, best)
    ensures PrefixClosed(rules) ==> IsLongest(rules, buffer, best)
  {
    best := 0;
    var suffix: Bytes := [];
    while |suffix| + 1 < |buffer|
      invariant |suffix| <= |buffer| && suffix == buffer[..|suffix|] && best <= |suffix|
      invariant forall n | 1 <= n <= |suffix| :: buffer[..n] in rules
      invariant best > 0 ==> IsMatch(rules, buffer, best)
      invariant forall l: nat | IsMatch(rules, buffer, l) && l <= |suffix| :: l <= best
      decreases |buffer| - |suffix|
    {
      assert buffer[..|suffix| + 1] == buffer[..|suffix|] + [buffer[|suffix|]];
      suffix := suffix + [buffer[|suffix|]];
      if suffix !in rules { break; }
      if rules[suffix] != [] { best := |suffix|; }
    }
    assert IsLongestReached(rules, buffer, best);
    if PrefixClosed(rules) { ClosedReaches(rules, buffer, best); }
  }

  lemma {:induction false} ReversedConcat(a: Bytes, b: Bytes)
    ensures Reversed(a + b) == Reversed(b) + Reversed(a)
  {
  }

  /** In the token's own direction: a prefix of the reversed token is a reversed suffix of the token. */
  lemma {:induction false} MatchIsSuffix(s: Bytes, l: nat)
    requires l <= |s|
    ensures Reversed(s)[..l] == Reversed(s[|s| - l..])
  {
    ReversedConcat(s[..|s| - l], s[|s| - l..]);
    assert s == s[..|s| - l] + s[|s| - l..];
  }

  /** The last l bytes of the token, fewer than all, are a rule with words. */
  predicate IsSuffixRule(rules: Rules, s: Bytes, l: nat) {
    1 <= l < |s| && Reversed(s[|s| - l..]) in rules && rules[Reversed(s[|s| - l..])] != []
  }

  /** The walk on the reversed token finds the longest rule that is a proper suffix of the token itself. */
  lemma {:induction false} LongestIsLongestSuffix(rules: Rules, s: Bytes, best: nat)
    requires IsLongest(rules, Reversed(s), best)
    ensures best > 0 ==> IsSuffixRule(rules, s, best)
    ensures forall l: nat | IsSuffixRule(rules, s, l) :: l <= best
  {
    if best > 0 { MatchIsSuffix(s, best); }
    forall l: nat | IsSuffixRule(rules, s, l) ensures l <= best {
      MatchIsSuffix(s, l);
      assert IsMatch(rules, Reversed(s), l);
    }
  }

  // ---------- the words of a match ----------

  /** How many bytes of the token are taken until their lowercased form has `need` bytes. */
  function PrefixBytes(t: Tables, token: Bytes, made: nat, need: nat): (n: nat)
    ensures n <= |token|
  {
    if made >= need || token == [] then 0
    else
      var step := Step(token).0;
      step + PrefixBytes(t, token[step..], made + |Encode(t.lower(First(token)))|, need)
  }

  /** `total` bytes are taken in all, `taken` of them already. */
  ghost predicate Counts(t: Tables, token: Bytes, taken: nat, made: nat, need: nat, total: nat) {
    taken <= |token| && taken + PrefixBytes(t, token[taken..], made, need) == total
  }

  /** One code point further. */
  lemma {:induction false} CountsNext(t: Tables, token: Bytes, taken: nat, made: nat, need: nat, total: nat, more: nat,
      next: nat)
    requires made < need && taken < |token| && Counts(t, token, taken, made, need, total)
    requires more == made + |Encode(t.lower(First(token[taken..])))| && next == taken + Step(token[taken..]).0
    ensures Counts(t, token, next, more, need, total)
  {
    var rest := token[taken..];
    assert rest[Step(rest).0..] == token[next..];
  }

  /** Code points of the first word after its prefix: all upper, or upper where the form is still empty. */
  function CasedCodes(t: Tables, casing: Casing, cs: seq<nat>, empty: bool): Bytes {
    if cs == [] then []
    else Encode(if casing.UpperAll? || (casing.UpperFirst? && empty) then t.upper(cs[0]) else cs[0])
         + CasedCodes(t, casing, cs[1..], false)
  }

  function FirstForm(t: Tables, token: Bytes, word: Bytes, prefixLength: nat): Bytes {
    var prefix := token[..PrefixBytes(t, token, 0, prefixLength)];
    prefix + CasedCodes(t, CasingOf(t, token), DecodeAll(word), prefix == [])
  }

  function OtherForm(t: Tables, token: Bytes, word: Bytes): Bytes {
    if CasingOf(t, token).UpperAll? then Map(t.upper, word) else word
  }

  function Others(t: Tables, token: Bytes, rule: seq<Bytes>): (r: seq<Piece>)
    requires rule != []
    ensures |r| == |rule| - 1 && forall k | 0 <= k < |r| :: r[k] == Piece(OtherForm(t, token, rule[k + 1]), [])
  {
    seq(|rule| - 1, k requires 0 <= k < |rule| - 1 => Piece(OtherForm(t, token, rule[k + 1]), []))
  }

  /** The appended words: the first one carries the prefix, and there are as many as the rule has. */
  function WordsOf(t: Tables, token: Bytes, rule: seq<Bytes>, prefixLength: nat): (r: seq<Piece>)
    requires rule != []
    ensures |r| == |rule|
  {
    [Piece(FirstForm(t, token, rule[0], prefixLength), [])] + Others(t, token, rule)
  }

  class MultiwordSplitter {
    const version: nat
    const fullRules: Rules
    const suffixRules: Rules

    ghost predicate Valid() {
      PrefixClosed(suffixRules) && forall k | k in fullRules :: fullRules[k] != []
    }

    constructor (version: nat, fullRules: Rules, suffixRules: Rules)
      ensures this.version == version && this.fullRules == fullRules && this.suffixRules == suffixRules
    {
      this.version, this.fullRules, this.suffixRules := version, fullRules, suffixRules;
    }

    /** The rule that applies to a token, by its lowercased and reversed form; `best` is the longest suffix match. */
    function RuleFor(buffer: Bytes, best: nat): Option<(seq<Bytes>, nat)> {
      if buffer in fullRules then Some((fullRules[buffer], 0))
      else if version >= 2 && IsMatch(suffixRules, buffer, best) then
        Some((suffixRules[buffer[..best]], |buffer| - best))
      else None
    }

    /** Appends the token: as one word when no rule applies, else as a multiword token over exactly the words of the
        rule, with consecutive ids from the next free one. */
    method AppendToken(t: Tables, token: Bytes, misc: Bytes, s: Sink) returns (ghost best: nat)
      requires Valid()
      modifies s
      ensures IsLongest(suffixRules, Reversed(Map(t.lower, token)), best)
      ensures var n, rule := |old(s.words)|, RuleFor(Reversed(Map(t.lower, token)), best);
              match rule
              case None => s.words == old(s.words) + [Piece(token, misc)] && s.ranges == old(s.ranges)
              case Some((words, prefixLength)) =>
                && words != []
                && s.words == old(s.words) + WordsOf(t, token, words, prefixLength)
                && s.ranges == old(s.ranges) + [Range(n, n + |words| - 1, token, misc)]
                && |s.words| - 1 == n + |words| - 1
    {
      var buffer := Reversed(Map(t.lower, token));
      var found := SearchSuffixes(suffixRules, buffer);
      best := found;
      var n := |s.words|;
      var words: seq<Bytes>, prefixLength := [], 0;
      if buffer in fullRules {
        words := fullRules[buffer];
      } else {
        if version >= 2 && found > 0 {
          words, prefixLength := suffixRules[buffer[..found]], |buffer| - found;
        }
        if prefixLength == 0 {
          s.words := s.words + [Piece(token, misc)];
          return;
        }
      }
      AppendWords(t, token, misc, words, prefixLength, s);
    }

    /** The multiword token and its words. */
    method AppendWords(t: Tables, token: Bytes, misc: Bytes, words: seq<Bytes>, prefixLength: nat, s: Sink)
      requires words != []
      modifies s
      ensures s.words == old(s.words) + WordsOf(t, token, words, prefixLength)
      ensures s.ranges == old(s.ranges) + [Range(|old(s.words)|, |old(s.words)| + |words| - 1, token, misc)]
    {
      s.ranges := s.ranges + [Range(|s.words|, |s.words| + |words| - 1, token, misc)];
      ghost var before, forms := s.words, WordsOf(t, token, words, prefixLength);
      var first := BuildFirst(t, token, words[0], prefixLength);
      s.words := s.words + [Piece(first, [])];
      AppendOthers(t, token, words, s);
      assert forms[..1] == [Piece(first, [])] && forms == forms[..1] + forms[1..];
    }

    /** The words after the first one. */
    method AppendOthers(t: Tables, token: Bytes, words: seq<Bytes>, s: Sink)
      requires words != []
      modifies s`words
      ensures s.words == old(s.words) + Others(t, token, words)
    {
      ghost var before, forms := s.words, Others(t, token, words);
      for i := 1 to |words|
        invariant s.words == before + forms[..i - 1]
      {
        var form := words[i];
        if CasingOf(t, token) == UpperAll { form := Map(t.upper, words[i]); }
        assert forms[..i] == forms[..i - 1] + [Piece(form, [])];
        s.words := s.words + [Piece(form, [])];
      }
      assert forms[..|words| - 1] == forms;
    }

    /** The prefix loop, in the original casing, and the loop over the first word of the rule. */
    method BuildFirst(t: Tables, token: Bytes, word: Bytes, prefixLength: nat) returns (form: Bytes)
      ensures form == FirstForm(t, token, word, prefixLength)
    {
      var taken := 0;
      if prefixLength > 0 { taken := CountPrefix(t, token, prefixLength); }
      form := token[..taken];
      var casing := CasingOf(t, token);
      var cs := DecodeString(word);
      ghost var all := form + CasedCodes(t, casing, cs, form == []);
      for k := 0 to |cs|
        invariant form + CasedCodes(t, casing, cs[k..], form == []) == all
      {
        var chr := if casing.UpperAll? || (casing.UpperFirst? && form == []) then t.upper(cs[k]) else cs[k];
        assert cs[k..][1..] == cs[k + 1..];
        Assoc(form, Utf8.Encode(chr), CasedCodes(t, casing, cs[k + 1..], false));
        form := form + Utf8.Encode(chr);
      }
      assert form + [] == form;
    }

    static method CountPrefix(t: Tables, token: Bytes, need: nat) returns (taken: nat)
      ensures taken == PrefixBytes(t, token, 0, need)
    {
      taken := 0;
      var made := 0;
      ghost var total := PrefixBytes(t, token, 0, need);
      assert token[0..] == token;
      while made < need && taken < |token|
        invariant 0 <= taken <= |token| && 0 <= made
        invariant Counts(t, token, taken, made, need, total)
        decreases |token| - taken
      {
        var more, next := CountOne(t, token, taken, made);
        CountsNext(t, token, taken, made, need, total, more, next);
        made, taken := more, next;
      }
    }

    /** The body of the loop: decodes one code point and adds the bytes of its lowercased form. */
    static method CountOne(t: Tables, token: Bytes, taken: nat, made: nat) returns (more: nat, next: nat)
      requires taken < |token|
      ensures more == made + |Utf8.Encode(t.lower(First(token[taken..])))|
      ensures next == taken + Step(token[taken..]).0
    {
      assert token[taken..taken + (|token| - taken)] == token[taken..];
      var chr, next', _ := Decode(token, taken, |token| - taken);
      more, next := made + |Utf8.Encode(t.lower(chr))|, next';
    }

    /** Loads a splitter; null on any malformed data, and always valid otherwise. */
    static method Load(version: nat, data: Bytes) returns (r: MultiwordSplitter?)
      ensures r != null <==> 1 <= version <= 2 && SplitterRules.Load(version, data).Some?
      ensures r != null ==>
                && r.Valid() && r.version == version
                && (r.fullRules, r.suffixRules) == SplitterRules.Load(version, data).value
    {
      if !(1 <= version <= 2) { return null; }
      var decoder := new BinaryDecoder(data);
      var full := LoadRulesLoop(decoder, false);
      if full.None? { return null; }
      var suffix: Option<Rules> := Some(map[]);
      if version >= 2 {
        suffix := LoadRulesLoop(decoder, true);
        if suffix.None? { return null; }
      }
      if decoder.data != [] { return null; }
      LoadIsClosed(version, data);
      LoadHasWords(version, data);
      r := new MultiwordSplitter(version, full.value, suffix.value);
    }
  }

  /** No full rule comes out without words. */
  lemma {:induction false} LoadHasWords(version: nat, data: Bytes)
    ensures SplitterRules.Load(version, data).Some? ==>
              forall k | k in SplitterRules.Load(version, data).value.0 ::
                SplitterRules.Load(version, data).value.0[k] != []
  {
    if SplitterRules.Load(version, data).Some? {
      var (n, rest) := TakeNumber(data).value;
      RulesHaveWords(n, rest, map[]);
    }
  }

  lemma {:induction false} RulesHaveWords(n: nat, data: Bytes, m: Rules)
    requires forall k | k in m :: m[k] != []
    ensures LoadRules(n, data, m, false).Some? ==>
              forall k | k in LoadRules(n, data, m, false).value.0 :: LoadRules(n, data, m, false).value.0[k] != []
    decreases n
  {
    if n > 0 && TakeRule(data).Some? {
      var (r, rest) := TakeRule(data).value;
      if AddRule(m, Reversed(r.key), r.words)[Reversed(r.key)] != [] {
        RulesHaveWords(n - 1, rest, AddRule(m, Reversed(r.key), r.words));
      }
    }
  }
}
