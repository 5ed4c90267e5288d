/** The multiword splitter's rules on disk: the trainer's encoding
    (src/tokenizer/multiword_splitter_trainer.cpp:104-119) and the loader (src/tokenizer/multiword_splitter.cpp:95-143),
    which reverses the keys and closes the suffix rules under non-empty prefixes. */
module SplitterRules {
  import opened Sentences
  import opened Sequences
  import opened Utf8
  import opened BinaryCodec

  datatype Rule = Rule(key: Bytes, words: seq<Bytes>)

  type Rules = map<Bytes, seq<Bytes>>

  function Reversed(s: Bytes): (r: Bytes)
    ensures |r| == |s| && forall i | 0 <= i < |s| :: r[i] == s[|s| - 1 - i]
  {
    if s == [] then [] else Reversed(s[1..]) + [s[0]]
  }

  lemma {:induction false} ReversedTwice(s: Bytes)
    ensures Reversed(Reversed(s)) == s
  {
  }

  // ---------- encoding ----------

  predicate CodableRule(r: Rule) {
    && |r.key| < LIMIT32 && 1 <= |r.words| <= 255
    && forall i | 0 <= i < |r.words| :: |r.words[i]| < LIMIT32
  }

  predicate CodableRules(rs: seq<Rule>) {
    |rs| < LIMIT32 && forall i | 0 <= i < |rs| :: CodableRule(rs[i])
  }

  /** The words from the k-th on. */
  function EncodeWords(words: seq<Bytes>, k: nat): Bytes
    requires k <= |words| && forall i | 0 <= i < |words| :: |words[i]| < LIMIT32
    decreases |words| - k
  {
    if k == |words| then [] else Text(words[k]) + EncodeWords(words, k + 1)
  }

  function EncodeRule(r: Rule): Bytes
    requires CodableRule(r)
  {
    Text(r.key) + ([|r.words|] + EncodeWords(r.words, 0))
  }

  /** The rules from the i-th on. */
  function EncodeFrom(rs: seq<Rule>, i: nat): Bytes
    requires CodableRules(rs) && i <= |rs|
    decreases |rs| - i
  {
    if i == |rs| then [] else EncodeRule(rs[i]) + EncodeFrom(rs, i + 1)
  }

  function EncodeSection(rs: seq<Rule>): Bytes
    requires CodableRules(rs)
  {
    Number(|rs|) + EncodeFrom(rs, 0)
  }

  function EncodeSplitter(full: seq<Rule>, suffix: seq<Rule>): Bytes
    requires CodableRules(full) && CodableRules(suffix)
  {
    EncodeSection(full) + EncodeSection(suffix)
  }

  /** The encoding loops of the trainer. */
  method EncodeRulesLoop(enc: BinaryEncoder, rs: seq<Rule>)
    requires CodableRules(rs)
    modifies enc
    ensures enc.data == old(enc.data) + EncodeSection(rs)
  {
    ghost var all := enc.data + EncodeSection(rs);
    Assoc(enc.data, Number(|rs|), EncodeFrom(rs, 0));
    enc.Add4B(|rs|);
    for i := 0 to |rs|
      invariant enc.data + EncodeFrom(rs, i) == all
    {
      assert CodableRule(rs[i]);
      Assoc(enc.data, EncodeRule(rs[i]), EncodeFrom(rs, i + 1));
      EncodeRuleLoop(enc, rs[i]);
    }
    assert enc.data + [] == enc.data;
  }

  method EncodeRuleLoop(enc: BinaryEncoder, r: Rule)
    requires CodableRule(r)
    modifies enc
    ensures enc.data == old(enc.data) + EncodeRule(r)
  {
    Assoc(enc.data, Text(r.key), [|r.words|] + EncodeWords(r.words, 0));
    Assoc(enc.data + Text(r.key), [|r.words|], EncodeWords(r.words, 0));
    enc.AddStr(r.key);
    var _ := enc.Add1B(|r.words|);
    EncodeWordsLoop(enc, r.words);
  }

  method EncodeWordsLoop(enc: BinaryEncoder, words: seq<Bytes>)
    requires forall k | 0 <= k < |words| :: |words[k]| < LIMIT32
    modifies enc
    ensures enc.data == old(enc.data) + EncodeWords(words, 0)
  {
    ghost var all := enc.data + EncodeWords(words, 0);
    for k := 0 to |words|
      invariant enc.data + EncodeWords(words, k) == all
    {
      Assoc(enc.data, Text(words[k]), EncodeWords(words, k + 1));
      enc.AddStr(words[k]);
    }
    assert enc.data + [] == enc.data;
  }

  // ---------- decoding ----------

  function TakeWords(data: Bytes, n: nat): Option<(seq<Bytes>, Bytes)> {
    if n == 0 then Some(([], data))
    else match TakeText(data)
      case None => None
      case Some((w, rest)) =>
        match TakeWords(rest, n - 1)
        case None => None
        case Some((ws, more)) => Some(([w] + ws, more))
  }

  function TakeRule(data: Bytes): Option<(Rule, Bytes)> {
    match TakeText(data)
    case None => None
    case Some((key, rest)) =>
      match TakeByte(rest)
      case None => None
      case Some((n, more)) =>
        match TakeWords(more, n)
        case None => None
        case Some((ws, last)) => Some((Rule(key, ws), last))
  }

  /** Words appended to the entry of a key, which is created when missing. */
  function AddRule(m: Rules, key: Bytes, words: seq<Bytes>): Rules {
    m[key := (if key in m then m[key] else []) + words]
  }

  /** Empty entries for the prefixes of length n down to 1 that have none. */
  function AddPrefixes(m: Rules, key: Bytes, n: nat): Rules
    requires n <= |key|
    decreases n
  {
    if n == 0 then m else AddPrefixes(if key[..n] in m then m else m[key[..n] := []], key, n - 1)
  }

  function AddClosed(m: Rules, key: Bytes, words: seq<Bytes>): Rules {
    AddPrefixes(AddRule(m, key, words), key, if key == [] then 0 else |key| - 1)
  }

  /** One rule read into m. */
  function WithRule(m: Rules, r: Rule, closed: bool): Rules {
    if closed then AddClosed(m, Reversed(r.key), r.words) else AddRule(m, Reversed(r.key), r.words)
  }

  /** n rules read into m; a rule without words is an error. */
  function LoadRules(n: nat, data: Bytes, m: Rules, closed: bool): Option<(Rules, Bytes)> {
    if n == 0 then Some((m, data))
    else match TakeRule(data)
      case None => None
      case Some((r, rest)) =>
        if AddRule(m, Reversed(r.key), r.words)[Reversed(r.key)] == [] then None
        else LoadRules(n - 1, rest, WithRule(m, r, closed), closed)
  }

  function LoadSection(data: Bytes, closed: bool): Option<(Rules, Bytes)> {
    match TakeNumber(data)
    case None => None
    case Some((n, rest)) => LoadRules(n, rest, map[], closed)
  }

  /** Full rules, suffix rules since version 2, and nothing after them. */
  function Load(version: nat, data: Bytes): Option<(Rules, Rules)> {
    match LoadSection(data, false)
    case None => None
    case Some((full, rest)) =>
      if version < 2 then (if rest == [] then Some((full, map[])) else None)
      else match LoadSection(rest, true)
        case None => None
        case Some((suffix, last)) => if last == [] then Some((full, suffix)) else None
  }

  // ---------- the round trip ----------

  ghost function Prepend(words: seq<Bytes>, r: Option<(seq<Bytes>, Bytes)>): Option<(seq<Bytes>, Bytes)> {
    match r
    case None => None
    case Some((ws, rest)) => Some((words + ws, rest))
  }

  lemma {:induction false} TakeWordsStep(w: Bytes, rest: Bytes, n: nat)
    requires |w| < LIMIT32 && n > 0
    ensures TakeWords(Text(w) + rest, n) == Prepend([w], TakeWords(rest, n - 1))
  {
    TextRoundTrip(w, rest);
  }

  lemma {:induction false} FromOn(words: seq<Bytes>, k: nat)
    requires k < |words|
    ensures words[k..] == [words[k]] + words[k + 1..]
  {
  }

  lemma {:induction false} WordsRoundTrip(words: seq<Bytes>, k: nat, rest: Bytes)
    requires k <= |words| && forall i | 0 <= i < |words| :: |words[i]| < LIMIT32
    ensures TakeWords(EncodeWords(words, k) + rest, |words| - k) == Some((words[k..], rest))
    decreases |words| - k
  {
    if k == |words| {
      NoWordsLeft(words, rest);
    } else {
      WordsRoundTrip(words, k + 1, rest);
      Assoc(Text(words[k]), EncodeWords(words, k + 1), rest);
      WordBeforeRest(words, k, EncodeWords(words, k + 1) + rest, rest);
    }
  }

  lemma {:induction false} NoWordsLeft(words: seq<Bytes>, rest: Bytes)
    ensures TakeWords([] + rest, 0) == Some((words[|words|..], rest))
  {
    assert [] + rest == rest && words[|words|..] == [];
  }

  lemma {:induction false} WordBeforeRest(words: seq<Bytes>, k: nat, tail: Bytes, rest: Bytes)
    requires k < |words| && |words[k]| < LIMIT32
    requires TakeWords(tail, |words| - k - 1) == Some((words[k + 1..], rest))
    ensures TakeWords(Text(words[k]) + tail, |words| - k) == Some((words[k..], rest))
  {
    TakeWordsStep(words[k], tail, |words| - k);
    FromOn(words, k);
  }

  lemma {:induction false} RuleRoundTrip(r: Rule, rest: Bytes)
    requires CodableRule(r)
    ensures TakeRule(EncodeRule(r) + rest) == Some((r, rest))
  {
    var body := [|r.words|] + EncodeWords(r.words, 0);
    Assoc(Text(r.key), body, rest);
    TextRoundTrip(r.key, body + rest);
    Assoc([|r.words|], EncodeWords(r.words, 0), rest);
    assert (body + rest)[1..] == EncodeWords(r.words, 0) + rest;
    WordsRoundTrip(r.words, 0, rest);
    assert r.words[0..] == r.words;
  }

  ghost predicate DistinctKeys(rs: seq<Rule>) {
    forall i, j | 0 <= i < j < |rs| :: rs[i].key != rs[j].key
  }

  /** The map the loader has built after the first i rules. */
  function Built(rs: seq<Rule>, i: nat, closed: bool): Rules
    requires i <= |rs|
  {
    if i == 0 then map[] else WithRule(Built(rs, i - 1, closed), rs[i - 1], closed)
  }

  predicate ProperPrefix(k: Bytes, key: Bytes) { |k| < |key| && k == key[..|k|] }

  ghost predicate IsRule(rs: seq<Rule>, n: nat, k: Bytes)
    requires n <= |rs|
  {
    exists i | 0 <= i < n :: Reversed(rs[i].key) == k
  }

  ghost predicate IsPrefix(rs: seq<Rule>, n: nat, k: Bytes)
    requires n <= |rs|
  {
    k != [] && exists i | 0 <= i < n :: ProperPrefix(k, Reversed(rs[i].key))
  }

  /** What the loaded map must be: every rule under its reversed key, with its own words; for suffix rules, empty
      entries for exactly the non-empty proper prefixes of reversed keys that are no rules themselves; nothing else. */
  ghost predicate Represents(m: Rules, rs: seq<Rule>, n: nat, closed: bool)
    requires n <= |rs|
  {
    && (forall i | 0 <= i < n :: Reversed(rs[i].key) in m && m[Reversed(rs[i].key)] == rs[i].words)
    && (forall k | k in m :: IsRule(rs, n, k) || (closed && m[k] == [] && IsPrefix(rs, n, k)))
    && (closed ==> forall i, l | 0 <= i < n && 1 <= l < |rs[i].key| :: Reversed(rs[i].key)[..l] in m)
  }

  lemma {:induction false} PrefixesAdded(m: Rules, key: Bytes, n: nat)
    requires n <= |key|
    ensures var r := AddPrefixes(m, key, n);
            && (forall k | k in m :: k in r && r[k] == m[k])
            && (forall l | 1 <= l <= n :: key[..l] in r)
            && (forall k | k in r && k !in m :: r[k] == [] && exists l | 1 <= l <= n :: k == key[..l])
    decreases n
  {
    if n > 0 {
      var m' := if key[..n] in m then m else m[key[..n] := []];
      PrefixesAdded(m', key, n - 1);
      var r := AddPrefixes(m, key, n);
      forall k | k in r && k !in m ensures r[k] == [] && exists l | 1 <= l <= n :: k == key[..l] {
        if k !in m' {
          var l :| 1 <= l <= n - 1 && k == key[..l];
          assert 1 <= l <= n;
        } else {
          assert k == key[..n];
        }
      }
    }
  }

  lemma {:induction false} DistinctReversed(rs: seq<Rule>, i: nat, j: nat)
    requires DistinctKeys(rs) && i < |rs| && j < |rs| && Reversed(rs[i].key) == Reversed(rs[j].key)
    ensures i == j
  {
    ReversedTwice(rs[i].key);
    ReversedTwice(rs[j].key);
  }

  /** A key that is still to come has no words yet. */
  lemma {:induction false} KeyIsNew(m: Rules, rs: seq<Rule>, n: nat, closed: bool)
    requires n < |rs| && DistinctKeys(rs) && Represents(m, rs, n, closed)
    ensures var key := Reversed(rs[n].key);
            !IsRule(rs, n, key) && AddRule(m, key, rs[n].words) == m[key := rs[n].words]
  {
    var key := Reversed(rs[n].key);
    if IsRule(rs, n, key) {
      var i :| 0 <= i < n && Reversed(rs[i].key) == key;
      DistinctReversed(rs, i, n);
    }
    assert [] + rs[n].words == rs[n].words;
  }

  lemma {:induction false} MoreRules(rs: seq<Rule>, n: nat, k: Bytes)
    requires n < |rs|
    ensures IsRule(rs, n, k) ==> IsRule(rs, n + 1, k)
    ensures IsPrefix(rs, n, k) ==> IsPrefix(rs, n + 1, k)
    ensures IsRule(rs, n + 1, Reversed(rs[n].key))
    ensures k != [] && ProperPrefix(k, Reversed(rs[n].key)) ==> IsPrefix(rs, n + 1, k)
  {
  }

  /** The next map: the new rule, and for suffix rules its missing prefixes. */
  ghost predicate Extends(m: Rules, r: Rules, key: Bytes, words: seq<Bytes>, closed: bool) {
    && key in r && r[key] == words
    && (forall k | k in m && k != key :: k in r && r[k] == m[k])
    && (forall k | k in r && k != key && k !in m :: closed && r[k] == [] && k != [] && ProperPrefix(k, key))
    && (closed ==> forall l | 1 <= l < |key| :: key[..l] in r)
  }

  lemma {:induction false} NextExtends(m: Rules, key: Bytes, words: seq<Bytes>, closed: bool)
    requires AddRule(m, key, words) == m[key := words]
    ensures Extends(m, if closed then AddClosed(m, key, words) else AddRule(m, key, words), key, words, closed)
  {
    if closed { PrefixesAdded(m[key := words], key, if key == [] then 0 else |key| - 1); }
  }

  lemma {:induction false} RuleAdded(m: Rules, r: Rules, rs: seq<Rule>, n: nat, closed: bool)
    requires n < |rs| && DistinctKeys(rs) && Represents(m, rs, n, closed)
    requires Extends(m, r, Reversed(rs[n].key), rs[n].words, closed)
    ensures Represents(r, rs, n + 1, closed)
  {
    var key := Reversed(rs[n].key);
    KeyIsNew(m, rs, n, closed);
    forall i | 0 <= i < n + 1 ensures Reversed(rs[i].key) in r && r[Reversed(rs[i].key)] == rs[i].words {
      if i < n { assert IsRule(rs, n, Reversed(rs[i].key)); }
    }
    forall k | k in r ensures IsRule(rs, n + 1, k) || (closed && r[k] == [] && IsPrefix(rs, n + 1, k)) {
      MoreRules(rs, n, k);
    }
    if closed { PrefixesStay(m, r, rs, n); }
  }

  lemma {:induction false} PrefixesStay(m: Rules, r: Rules, rs: seq<Rule>, n: nat)
    requires n < |rs| && Represents(m, rs, n, true) && Extends(m, r, Reversed(rs[n].key), rs[n].words, true)
    ensures forall i, l | 0 <= i < n + 1 && 1 <= l < |rs[i].key| :: Reversed(rs[i].key)[..l] in r
  {
    forall i, l | 0 <= i < n + 1 && 1 <= l < |rs[i].key| ensures Reversed(rs[i].key)[..l] in r {
      if i < n { assert Reversed(rs[i].key)[..l] in m; }
    }
  }

  lemma {:induction false} BuiltStep(rs: seq<Rule>, n: nat, closed: bool)
    requires n < |rs| && DistinctKeys(rs) && Represents(Built(rs, n, closed), rs, n, closed)
    ensures Represents(Built(rs, n + 1, closed), rs, n + 1, closed)
  {
    var m := Built(rs, n, closed);
    KeyIsNew(m, rs, n, closed);
    NextExtends(m, Reversed(rs[n].key), rs[n].words, closed);
    RuleAdded(m, Built(rs, n + 1, closed), rs, n, closed);
  }

  lemma {:induction false} NothingBuilt(rs: seq<Rule>, closed: bool)
    ensures Represents(map[], rs, 0, closed)
  {
  }

  lemma {:induction false} BuiltRepresents(rs: seq<Rule>, n: nat, closed: bool)
    requires n <= |rs| && DistinctKeys(rs)
    ensures Represents(Built(rs, n, closed), rs, n, closed)
    decreases n
  {
    if n == 0 {
      NothingBuilt(rs, closed);
    } else {
      BuiltRepresents(rs, n - 1, closed);
      BuiltStep(rs, n - 1, closed);
    }
  }

  lemma {:induction false} LoadStep(n: nat, r: Rule, rest: Bytes, m: Rules, closed: bool)
    requires n > 0 && CodableRule(r) && AddRule(m, Reversed(r.key), r.words) == m[Reversed(r.key) := r.words]
    ensures LoadRules(n, EncodeRule(r) + rest, m, closed) == LoadRules(n - 1, rest, WithRule(m, r, closed), closed)
  {
    RuleRoundTrip(r, rest);
  }

  lemma {:induction false} RulesRoundTrip(rs: seq<Rule>, i: nat, rest: Bytes, closed: bool)
    requires CodableRules(rs) && DistinctKeys(rs) && i <= |rs|
    ensures LoadRules(|rs| - i, EncodeFrom(rs, i) + rest, Built(rs, i, closed), closed) ==
            Some((Built(rs, |rs|, closed), rest))
    decreases |rs| - i
  {
    if i == |rs| {
      assert EncodeFrom(rs, i) + rest == rest;
    } else {
      var m := Built(rs, i, closed);
      BuiltRepresents(rs, i, closed);
      KeyIsNew(m, rs, i, closed);
      Assoc(EncodeRule(rs[i]), EncodeFrom(rs, i + 1), rest);
      LoadStep(|rs| - i, rs[i], EncodeFrom(rs, i + 1) + rest, m, closed);
      RulesRoundTrip(rs, i + 1, rest, closed);
    }
  }

  lemma {:induction false} SectionRoundTrip(rs: seq<Rule>, rest: Bytes, closed: bool)
    requires CodableRules(rs) && DistinctKeys(rs)
    ensures LoadSection(EncodeSection(rs) + rest, closed) == Some((Built(rs, |rs|, closed), rest))
  {
    Assoc(Number(|rs|), EncodeFrom(rs, 0), rest);
    NumberRoundTrip(|rs|, EncodeFrom(rs, 0) + rest);
    RulesRoundTrip(rs, 0, rest, closed);
  }

  /** Loading what the trainer saved: exactly its rules under reversed keys, the suffix rules with their prefixes closed
      by empty entries, and the data read to its end. */
  lemma {:induction false} LoadEncode(full: seq<Rule>, suffix: seq<Rule>)
    requires CodableRules(full) && CodableRules(suffix) && DistinctKeys(full) && DistinctKeys(suffix)
    ensures Load(2, EncodeSplitter(full, suffix)).Some?
    ensures var r := Load(2, EncodeSplitter(full, suffix)).value;
            Represents(r.0, full, |full|, false) && Represents(r.1, suffix, |suffix|, true)
  {
    SectionRoundTrip(full, EncodeSection(suffix), false);
    SectionRoundTrip(suffix, [], true);
    assert EncodeSection(suffix) + [] == EncodeSection(suffix);
    BuiltRepresents(full, |full|, false);
    BuiltRepresents(suffix, |suffix|, true);
  }

  // ---------- closure, for any data ----------

  /** Every non-empty proper prefix of a key is a key. */
  ghost predicate PrefixClosed(m: Rules) {
    forall k, l | k in m && 1 <= l < |k| :: k[..l] in m
  }

  lemma {:induction false} ClosedKept(m: Rules, key: Bytes, words: seq<Bytes>)
    requires PrefixClosed(m)
    ensures PrefixClosed(AddClosed(m, key, words))
  {
    var added := AddRule(m, key, words);
    var top := if key == [] then 0 else |key| - 1;
    PrefixesAdded(added, key, top);
    var r := AddClosed(m, key, words);
    forall k, l | k in r && 1 <= l < |k| ensures k[..l] in r {
      if k == key {
        assert key[..l] in r;
      } else if k in m {
        assert k[..l] in m;
      } else {
        var n :| 1 <= n <= top && k == key[..n];
        assert k[..l] == key[..l];
      }
    }
  }

  lemma {:induction false} LoadedClosed(n: nat, data: Bytes, m: Rules)
    requires PrefixClosed(m)
    ensures LoadRules(n, data, m, true).Some? ==> PrefixClosed(LoadRules(n, data, m, true).value.0)
    decreases n
  {
    if n > 0 && TakeRule(data).Some? {
      var (r, rest) := TakeRule(data).value;
      ClosedKept(m, Reversed(r.key), r.words);
      LoadedClosed(n - 1, rest, AddClosed(m, Reversed(r.key), r.words));
    }
  }

  /** Whatever bytes are loaded, the suffix rules come out closed under non-empty prefixes. */
  lemma {:induction false} LoadIsClosed(version: nat, data: Bytes)
    ensures Load(version, data).Some? ==> PrefixClosed(Load(version, data).value.1)
  {
    if Load(version, data).Some? && version >= 2 {
      var rest := LoadSection(data, false).value.1;
      var (n, more) := TakeNumber(rest).value;
      LoadedClosed(n, more, map[]);
    }
  }

  // ---------- the loader ----------

  lemma {:induction false} LoadRulesNext(n: nat, data: Bytes, m: Rules, closed: bool)
    requires n > 0
    ensures LoadRules(n, data, m, closed) ==
            match TakeRule(data)
            case None => None
            case Some((r, rest)) =>
              if AddRule(m, Reversed(r.key), r.words)[Reversed(r.key)] == [] then None
              else LoadRules(n - 1, rest, WithRule(m, r, closed), closed)
  {
  }

  method LoadRulesLoop(data: BinaryDecoder, closed: bool) returns (r: Option<Rules>)
    modifies data
    ensures match LoadSection(old(data.data), closed)
            case Some((m, rest)) => r == Some(m) && data.data == rest
            case None => r == None
  {
    ghost var all := LoadSection(data.data, closed);
    var count := data.Next4B();
    if count.None? { return None; }
    var rules: Rules := map[];
    var n := count.value;
    while n > 0
      invariant LoadRules(n, data.data, rules, closed) == all
      decreases n
    {
      LoadRulesNext(n, data.data, rules, closed);
      var rule := ReadRule(data);
      if rule.None? { return None; }
      var key := Reversed(rule.value.key);
      var added := AddRule(rules, key, rule.value.words);
      if added[key] == [] { return None; }
      if closed { added := ClosePrefixes(added, key); }
      rules, n := added, n - 1;
    }
    return Some(rules);
  }

  /** The loop that shortens the key. */
  method ClosePrefixes(rules: Rules, key: Bytes) returns (r: Rules)
    ensures r == AddPrefixes(rules, key, if key == [] then 0 else |key| - 1)
  {
    r := rules;
    if key == [] { return; }
    var l := |key| - 1;
    while l > 0
      invariant 0 <= l < |key|
      invariant AddPrefixes(r, key, l) == AddPrefixes(rules, key, |key| - 1)
    {
      if key[..l] !in r { r := r[key[..l] := []]; }
      l := l - 1;
    }
  }

  method ReadRule(data: BinaryDecoder) returns (r: Option<Rule>)
    modifies data
    ensures match TakeRule(old(data.data))
            case Some((rule, rest)) => r == Some(rule) && data.data == rest
            case None => r == None
  {
    var key := data.NextStr();
    if key.None? { return None; }
    var count := data.Next1B();
    if count.None? { return None; }
    var words := ReadWords(data, count.value);
    if words.None? { return None; }
    return Some(Rule(key.value, words.value));
  }

  method ReadWords(data: BinaryDecoder, count: nat) returns (r: Option<seq<Bytes>>)
    modifies data
    ensures match TakeWords(old(data.data), count)
            case Some((words, rest)) => r == Some(words) && data.data == rest
            case None => r == None
  {
    ghost var all := TakeWords(data.data, count);
    var words: seq<Bytes> := [];
    var n := count;
    if all.Some? { assert [] + all.value.0 == all.value.0; }
    while n > 0
      invariant all == Prepend(words, TakeWords(data.data, n))
      decreases n
    {
      var w := data.NextStr();
      if w.None? { return None; }
      ghost var tail := TakeWords(data.data, n - 1);
      if tail.Some? { assert words + ([w.value] + tail.value.0) == (words + [w.value]) + tail.value.0; }
      words := words + [w.value];
      n := n - 1;
    }
    assert words + [] == words;
    return Some(words);
  }
}
