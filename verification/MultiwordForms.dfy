/** The forms that src/tokenizer/multiword_splitter.cpp:63-92 builds. */
module MultiwordForms {
  import opened Sentences
  import opened Sequences
  import opened Utf8
  import opened SplitterRules
  import MS = MultiwordSplitter

  // How the prefix, which is counted in bytes of lowercased characters, relates to the token, and how casing carries
  // over.

  // ---------- the prefix ----------

  /** A code point is decoded the same when the string is cut after it. */
  lemma {:induction false} StepOfPrefix(s: Bytes, p: nat)
    requires s != [] && Step(s).0 <= p <= |s|
    ensures Step(s[..p]) == Step(s) && First(s[..p]) == First(s)
  {
    var t := s[..p];
    assert forall k | 0 <= k < p :: t[k] == s[k];
    assert Continues(s, 1) && p > 1 ==> Continues(t, 1);
    assert Continues(s, 2) && p > 2 ==> Continues(t, 2);
    assert Continues(s, 3) && p > 3 ==> Continues(t, 3);
  }

  lemma {:induction false} MapStep(f: nat -> nat, s: Bytes)
    requires s != []
    ensures Map(f, s) == Encode(f(First(s))) + Map(f, s[Step(s).0..])
  {
    var cs := DecodeAll(s);
    assert MapCodes(f, cs)[1..] == MapCodes(f, DecodeAll(s[Step(s).0..]));
  }

  /** Cut after p bytes, the token is cut between two code points, and the part before lowercases to the bytes that are
      still needed, with at most three more of the same character. */
  ghost predicate Reaches(t: MS.Tables, token: Bytes, p: nat, made: nat, need: nat) {
    && p <= |token|
    && Map(t.lower, token) == Map(t.lower, token[..p]) + Map(t.lower, token[p..])
    && need <= made + |Map(t.lower, token[..p])|
    && (if made < need then made + |Map(t.lower, token[..p])| < need + 4 else |Map(t.lower, token[..p])| == 0)
  }

  lemma {:induction false} PrefixReaches(t: MS.Tables, token: Bytes, made: nat, need: nat)
    requires made + |Map(t.lower, token)| >= need
    ensures Reaches(t, token, MS.PrefixBytes(t, token, made, need), made, need)
    decreases |token|
  {
    if made >= need || token == [] {
      NothingTaken(t.lower, token);
    } else {
      var more := EnoughLeft(t, token, made, need);
      PrefixReaches(t, token[Step(token).0..], more, need);
      ReachesStep(t, token, MS.PrefixBytes(t, token[Step(token).0..], more, need), made, more, need);
      PrefixStep(t, token, made, more, need);
    }
  }

  lemma {:induction false} EnoughLeft(t: MS.Tables, token: Bytes, made: nat, need: nat) returns (more: nat)
    requires token != [] && made + |Map(t.lower, token)| >= need
    ensures more == made + |Encode(t.lower(First(token)))|
    ensures more + |Map(t.lower, token[Step(token).0..])| >= need
  {
    MapStep(t.lower, token);
    more := made + |Encode(t.lower(First(token)))|;
  }

  lemma {:induction false} PrefixStep(t: MS.Tables, token: Bytes, made: nat, more: nat, need: nat)
    requires token != [] && made < need && more == made + |Encode(t.lower(First(token)))|
    ensures MS.PrefixBytes(t, token, made, need) ==
            Step(token).0 + MS.PrefixBytes(t, token[Step(token).0..], more, need)
  {
  }

  lemma {:induction false} ReachesStep(t: MS.Tables, token: Bytes, q: nat, made: nat, more: nat, need: nat)
    requires token != [] && made < need && more == made + |Encode(t.lower(First(token)))|
    requires Reaches(t, token[Step(token).0..], q, more, need)
    ensures Reaches(t, token, Step(token).0 + q, made, need)
  {
    MapCut(t.lower, token, q);
    ByLengths(made, more, need, |Map(t.lower, token[..Step(token).0 + q])|,
        |Map(t.lower, token[Step(token).0..][..q])|);
  }

  lemma {:induction false} ByLengths(made: nat, more: nat, need: nat, whole: nat, rest: nat)
    requires made < need && made < more <= made + 4 && whole == more - made + rest
    requires need <= more + rest && (if more < need then more + rest < need + 4 else rest == 0)
    ensures need <= made + whole < need + 4
  {
  }

  lemma {:induction false} NothingTaken(f: nat -> nat, s: Bytes)
    ensures Map(f, s) == Map(f, s[..0]) + Map(f, s[0..]) && |Map(f, s[..0])| == 0
  {
    assert s[..0] == [] && s[0..] == s && Map(f, []) == [];
    assert [] + Map(f, s) == Map(f, s);
  }

  /** A cut behind the first code point. */
  lemma {:induction false} MapCut(f: nat -> nat, s: Bytes, q: nat)
    requires s != [] && Step(s).0 + q <= |s|
    requires var rest := s[Step(s).0..]; Map(f, rest) == Map(f, rest[..q]) + Map(f, rest[q..])
    ensures var n := Step(s).0;
            && Map(f, s[..n + q]) == Encode(f(First(s))) + Map(f, s[n..][..q])
            && Map(f, s) == Map(f, s[..n + q]) + Map(f, s[n + q..])
  {
    var n := Step(s).0;
    StepOfPrefix(s, n + q);
    MapStep(f, s);
    MapStep(f, s[..n + q]);
    assert s[..n + q][n..] == s[n..][..q] && s[n + q..] == s[n..][q..];
    Assoc(Encode(f(First(s))), Map(f, s[n..][..q]), Map(f, s[n..][q..]));
  }

  predicate Continuation(b: byte) { 0x80 <= b < 0xC0 }

  /** The bytes of one encoded code point after its first one, and only these, are continuation bytes. */
  lemma {:induction false} EncodeBytes(chr: nat, k: nat)
    requires k < |Encode(chr)|
    ensures Continuation(Encode(chr)[k]) <==> k > 0
  {
  }

  /** The prefix lowercases to exactly the needed bytes if and only if the byte after them starts a character. */
  lemma {:induction false} PrefixExact(t: MS.Tables, token: Bytes, made: nat, need: nat)
    requires made <= need < made + |Map(t.lower, token)|
    ensures made + |Map(t.lower, token[..MS.PrefixBytes(t, token, made, need)])| == need <==>
            !Continuation(Map(t.lower, token)[need - made])
    decreases |token|
  {
    assert token != [] by { assert Map(t.lower, []) == []; }
    MapStep(t.lower, token);
    if made == need {
      NothingTaken(t.lower, token);
      EncodeBytes(t.lower(First(token)), 0);
    } else {
      PrefixExactStep(t, token, made, made + |Encode(t.lower(First(token)))|, need);
    }
  }

  lemma {:induction false} PrefixExactStep(t: MS.Tables, token: Bytes, made: nat, more: nat, need: nat)
    requires token != [] && made < need < made + |Map(t.lower, token)|
    requires more == made + |Encode(t.lower(First(token)))|
    ensures made + |Map(t.lower, token[..MS.PrefixBytes(t, token, made, need)])| == need <==>
            !Continuation(Map(t.lower, token)[need - made])
    decreases |token|, 0
  {
    var e, rest := Encode(t.lower(First(token))), token[Step(token).0..];
    MapStep(t.lower, token);
    CutLength(t, token, made, more, need);
    EncodeBytes(t.lower(First(token)), if need < more then need - made else 0);
    if need < more {
      assert (e + Map(t.lower, rest))[need - made] == e[need - made];
    } else {
      PrefixExact(t, rest, more, need);
      assert (e + Map(t.lower, rest))[need - made] == Map(t.lower, rest)[need - more];
    }
  }

  lemma {:induction false} CutLength(t: MS.Tables, token: Bytes, made: nat, more: nat, need: nat)
    requires token != [] && made < need && more == made + |Encode(t.lower(First(token)))|
    requires need <= more + |Map(t.lower, token[Step(token).0..])|
    ensures var rest := token[Step(token).0..];
            |Map(t.lower, token[..MS.PrefixBytes(t, token, made, need)])| ==
            more - made + |Map(t.lower, rest[..MS.PrefixBytes(t, rest, more, need)])|
  {
    var rest := token[Step(token).0..];
    PrefixReaches(t, rest, more, need);
    CutLengthAt(t, token, made, more, need, MS.PrefixBytes(t, rest, more, need));
    PrefixStep(t, token, made, more, need);
  }

  lemma {:induction false} CutLengthAt(t: MS.Tables, token: Bytes, made: nat, more: nat, need: nat, q: nat)
    requires token != [] && more == made + |Encode(t.lower(First(token)))|
    requires Reaches(t, token[Step(token).0..], q, more, need)
    ensures var n := Step(token).0;
            n + q <= |token| && |Map(t.lower, token[..n + q])| == more - made + |Map(t.lower, token[n..][..q])|
  {
    MapCut(t.lower, token, q);
  }

  /** The prefix that is left of a suffix rule of `best` bytes: lowercased and followed by the rule it gives back the
      lowercased token if and only if the rule does not start inside a character of the lowercased token; otherwise it
      has up to three bytes too many. */
  lemma {:induction false} PrefixAndSuffix(t: MS.Tables, token: Bytes, best: nat)
    requires 0 < best < |Map(t.lower, token)|
    ensures var low := Map(t.lower, token);
            var prefix := token[..MS.PrefixBytes(t, token, 0, |low| - best)];
            && |low| - best <= |Map(t.lower, prefix)| < |low| - best + 4
            && (Map(t.lower, prefix) + low[|low| - best..] == low <==> !Continuation(low[|low| - best]))
  {
    var low := Map(t.lower, token);
    var need := |low| - best;
    PrefixReaches(t, token, 0, need);
    PrefixExact(t, token, 0, need);
    var p := MS.PrefixBytes(t, token, 0, need);
    var made, others := Map(t.lower, token[..p]), Map(t.lower, token[p..]);
    if |made| == need { assert low[need..] == others; }
    if made + low[need..] == low { assert |made| + best == |low|; }
  }

  const A_ACUTE: Bytes := [0x61, 0xC3, 0xA9]

  /** A rule that is the last byte of a two-byte character: the first form already takes the whole token, and the byte
      of the rule comes a second time. A trained rule starts with a byte below 0x80 or from 0xC0 on
      (src/tokenizer/multiword_splitter_trainer.cpp:65-72) and does not meet this case. */
  lemma {:induction false} PrefixOvershoots(t: MS.Tables)
    requires t.lower(0x61) == 0x61 && t.lower(0xE9) == 0xE9
    ensures Map(t.lower, A_ACUTE) == A_ACUTE && MS.PrefixBytes(t, A_ACUTE, 0, |A_ACUTE| - 1) == |A_ACUTE|
    ensures Map(t.lower, A_ACUTE) + A_ACUTE[|A_ACUTE| - 1..] != A_ACUTE
  {
    var s, rest := A_ACUTE, A_ACUTE[1..];
    assert Step(s) == (1, true) && First(s) == 0x61 && Encode(0x61) == [0x61];
    assert rest == [0xC3, 0xA9];
    assert Low(rest[0], 0x20) == 3 && Low(rest[1], 0x40) == 0x29;
    assert Step(rest) == (2, true) && First(rest) == 0xE9 && Encode(0xE9) == [0xC3, 0xA9];
    assert rest[2..] == [] && Map(t.lower, []) == [];
    MapStep(t.lower, s);
    MapStep(t.lower, rest);
    assert Map(t.lower, rest) == rest;
    PrefixStep(t, s, 0, 1, 2);
    PrefixStep(t, rest, 1, 3, 2);
  }

  // ---------- casing ----------

  lemma {:induction false} AllCased(t: MS.Tables, cs: seq<nat>, empty: bool)
    ensures MS.CasedCodes(t, MS.UpperAll, cs, empty) == EncodeAll(MapCodes(t.upper, cs))
    decreases |cs|
  {
    if cs != [] {
      AllCased(t, cs[1..], false);
      assert MapCodes(t.upper, cs)[1..] == MapCodes(t.upper, cs[1..]);
    }
  }

  lemma {:induction false} NoneCased(t: MS.Tables, casing: MS.Casing, cs: seq<nat>, empty: bool)
    requires casing.UpperOther? || (casing.UpperFirst? && !empty)
    ensures MS.CasedCodes(t, casing, cs, empty) == EncodeAll(cs)
    decreases |cs|
  {
    if cs != [] { NoneCased(t, casing, cs[1..], false); }
  }

  /** A string with every coding made the shortest one: itself if all are already (EncodeDecodeAll). */
  function Recoded(s: Bytes): Bytes { EncodeAll(DecodeAll(s)) }

  /** The first form is the token's own prefix and the rule's first word: all of it in upper case if the token is all
      upper case, its first character if the token starts in upper case and has no prefix, and as it is otherwise. */
  lemma {:induction false} FirstFormCased(t: MS.Tables, token: Bytes, word: Bytes, prefixLength: nat)
    ensures var prefix := token[..MS.PrefixBytes(t, token, 0, prefixLength)];
            var form := MS.FirstForm(t, token, word, prefixLength);
            match MS.CasingOf(t, token)
            case UpperAll => form == prefix + Map(t.upper, word)
            case UpperOther => form == prefix + Recoded(word)
            case UpperFirst =>
              form == if prefix != [] || word == [] then prefix + Recoded(word)
                      else Encode(t.upper(First(word))) + Recoded(word[Step(word).0..])
  {
    var prefix := token[..MS.PrefixBytes(t, token, 0, prefixLength)];
    var casing, cs := MS.CasingOf(t, token), DecodeAll(word);
    match casing {
      case UpperAll => AllCased(t, cs, prefix == []);
      case UpperOther => NoneCased(t, casing, cs, prefix == []);
      case UpperFirst =>
        if prefix != [] {
          NoneCased(t, casing, cs, false);
        } else if word != [] {
          NoneCased(t, casing, cs[1..], false);
          assert cs[1..] == DecodeAll(word[Step(word).0..]);
        }
    }
  }

  /** The first code point of the token, as the tables see it. */
  function FirstCode(token: Bytes): nat { if token == [] then 0 else First(token) }

  predicate HasOtherLetter(t: MS.Tables, token: Bytes) {
    exists i | 0 <= i < |DecodeAll(token)| :: t.isOtherLetter(DecodeAll(token)[i])
  }

  lemma {:induction false} RecodedShortest(s: Bytes)
    ensures Recoded(s) == s <==> AllShortest(s)
  {
    EncodeDecodeAll(s);
  }

  /** The token starts in upper case and has no other letter. */
  predicate AllUpper(t: MS.Tables, token: Bytes) { t.isUpper(FirstCode(token)) && !HasOtherLetter(t, token) }

  /** The token starts in upper case and has another letter. */
  predicate OnlyFirstUpper(t: MS.Tables, token: Bytes) { t.isUpper(FirstCode(token)) && HasOtherLetter(t, token) }

  lemma {:induction false} CasingMeans(t: MS.Tables, token: Bytes)
    ensures MS.CasingOf(t, token) ==
            if AllUpper(t, token) then MS.UpperAll
            else if OnlyFirstUpper(t, token) then MS.UpperFirst
            else MS.UpperOther
  {
  }

  /** The first word that a rule becomes, told from the characters of the token: behind the token's own prefix every
      character of the rule is mapped to upper case if the token is all upper, at most the first one if only the start
      of the token is, and where no prefix stands in front of it, and none otherwise. */
  lemma {:induction false} FirstWordCased(t: MS.Tables, token: Bytes, rule: seq<Bytes>, prefixLength: nat)
    requires rule != []
    ensures var form := MS.WordsOf(t, token, rule, prefixLength)[0].form;
            var prefix, word := token[..MS.PrefixBytes(t, token, 0, prefixLength)], rule[0];
            form == if AllUpper(t, token) then prefix + Map(t.upper, word)
                    else if OnlyFirstUpper(t, token) && prefix == [] && word != []
                    then Encode(t.upper(First(word))) + Recoded(word[Step(word).0..])
                    else prefix + Recoded(word)
  {
    CasingMeans(t, token);
    FirstFormCased(t, token, rule[0], prefixLength);
  }

  /** The other words: all upper for a token that is, and the rule's own otherwise; and nothing is written to MISC. */
  lemma {:induction false} OtherWordsCased(t: MS.Tables, token: Bytes, rule: seq<Bytes>, prefixLength: nat, k: nat)
    requires 1 <= k < |rule|
    ensures MS.WordsOf(t, token, rule, prefixLength)[k].form ==
            if AllUpper(t, token) then Map(t.upper, rule[k]) else rule[k]
  {
    CasingMeans(t, token);
  }

  // ---------- which rule applies ----------

  /** The key of a suffix rule stands at the end of the lowercased token, with something in front of it. */
  predicate EndsWith(low: Bytes, key: Bytes) { 0 < |key| < |low| && low[|low| - |key|..] == key }

  /** A splitter with the maps of the trained rules. */
  ghost predicate HoldsRules(sp: MS.MultiwordSplitter, full: seq<Rule>, suffix: seq<Rule>) {
    && Represents(sp.fullRules, full, |full|, false) && Represents(sp.suffixRules, suffix, |suffix|, true)
    && forall j | 0 <= j < |suffix| :: suffix[j].words != []
  }

  lemma {:induction false} MatchIsRule(m: Rules, suffix: seq<Rule>, low: Bytes, l: nat)
    requires Represents(m, suffix, |suffix|, true) && MS.IsMatch(m, Reversed(low), l)
    ensures exists j | 0 <= j < |suffix| ::
              EndsWith(low, suffix[j].key) && |suffix[j].key| == l && m[Reversed(low)[..l]] == suffix[j].words
  {
    assert IsRule(suffix, |suffix|, Reversed(low)[..l]);
    var j :| 0 <= j < |suffix| && Reversed(suffix[j].key) == Reversed(low)[..l];
    KeyAtEnd(suffix[j].key, low, l);
  }

  lemma {:induction false} KeyAtEnd(key: Bytes, low: Bytes, l: nat)
    requires l <= |low| && Reversed(key) == Reversed(low)[..l]
    ensures |key| == l && low[|low| - l..] == key
  {
    MS.MatchIsSuffix(low, l);
    ReversedTwice(key);
    ReversedTwice(low[|low| - l..]);
  }

  lemma {:induction false} RuleIsMatch(m: Rules, suffix: seq<Rule>, low: Bytes, j: nat)
    requires Represents(m, suffix, |suffix|, true) && j < |suffix| && suffix[j].words != []
    requires EndsWith(low, suffix[j].key)
    ensures MS.IsMatch(m, Reversed(low), |suffix[j].key|)
    ensures m[Reversed(low)[..|suffix[j].key|]] == suffix[j].words
  {
    MS.MatchIsSuffix(low, |suffix[j].key|);
  }

  /** The rule that applies, told from the trained rules: a full rule for the whole token comes first, ... */
  lemma {:induction false} FullRuleApplies(sp: MS.MultiwordSplitter, full: seq<Rule>, suffix: seq<Rule>, low: Bytes,
      best: nat, i: nat)
    requires HoldsRules(sp, full, suffix) && i < |full| && full[i].key == low
    ensures sp.RuleFor(Reversed(low), best) == Some((full[i].words, 0))
  {
  }

  /** No other suffix rule at the end of the token is longer. */
  ghost predicate LongestAtEnd(suffix: seq<Rule>, low: Bytes, j: nat) {
    && j < |suffix| && EndsWith(low, suffix[j].key)
    && forall k | 0 <= k < |suffix| && EndsWith(low, suffix[k].key) :: |suffix[k].key| <= |suffix[j].key|
  }

  /** ... then the longest suffix rule that leaves something in front, ... */
  lemma {:induction false} SuffixRuleApplies(sp: MS.MultiwordSplitter, full: seq<Rule>, suffix: seq<Rule>, low: Bytes,
      best: nat, j: nat)
    requires HoldsRules(sp, full, suffix) && sp.version >= 2 && MS.IsLongest(sp.suffixRules, Reversed(low), best)
    requires (forall i | 0 <= i < |full| :: full[i].key != low) && LongestAtEnd(suffix, low, j)
    ensures sp.RuleFor(Reversed(low), best) == Some((suffix[j].words, |low| - |suffix[j].key|))
  {
    NoFullRule(sp.fullRules, full, low);
    RuleIsMatch(sp.suffixRules, suffix, low, j);
    if best > |suffix[j].key| { MatchIsRule(sp.suffixRules, suffix, low, best); }
  }

  /** ... and none if there is neither. */
  lemma {:induction false} NoRuleApplies(sp: MS.MultiwordSplitter, full: seq<Rule>, suffix: seq<Rule>, low: Bytes,
      best: nat)
    requires HoldsRules(sp, full, suffix) && MS.IsLongest(sp.suffixRules, Reversed(low), best)
    requires (forall i | 0 <= i < |full| :: full[i].key != low)
    requires (forall j | 0 <= j < |suffix| :: !EndsWith(low, suffix[j].key))
    ensures sp.RuleFor(Reversed(low), best) == None
  {
    NoFullRule(sp.fullRules, full, low);
    if best > 0 { MatchIsRule(sp.suffixRules, suffix, low, best); }
  }

  lemma {:induction false} NoFullRule(m: Rules, full: seq<Rule>, low: Bytes)
    requires Represents(m, full, |full|, false) && forall i | 0 <= i < |full| :: full[i].key != low
    ensures Reversed(low) !in m
  {
    if Reversed(low) in m {
      var i :| 0 <= i < |full| && Reversed(full[i].key) == Reversed(low);
      ReversedTwice(full[i].key);
      ReversedTwice(low);
    }
  }
}
