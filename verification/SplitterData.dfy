/** Which data the multiword splitter loads, and what it makes of them. */
module SplitterData {
  import opened Sentences
  import opened Sequences
  import opened Utf8
  import opened BinaryCodec
  import opened SplitterRules

  // src/tokenizer/multiword_splitter.cpp:95-143. The converse of the round trip in SplitterRules: data are loaded only
  // if they are codings of rules to their end. A key may come more than once; its words then add up.

  // ---------- the entries ----------

  /** The words of all of the first n rules with the reversed key k, in order. */
  function WordsFor(rs: seq<Rule>, n: nat, k: Bytes): seq<Bytes>
    requires n <= |rs|
  {
    if n == 0 then []
    else WordsFor(rs, n - 1, k) + if Reversed(rs[n - 1].key) == k then rs[n - 1].words else []
  }

  /** The map has the keys of the rules and, for suffix rules, their non-empty prefixes, and under each key the words of
      all its rules. */
  ghost predicate Collects(m: Rules, rs: seq<Rule>, n: nat, closed: bool)
    requires n <= |rs|
  {
    && (forall k :: k in m <==> IsRule(rs, n, k) || (closed && IsPrefix(rs, n, k)))
    && (forall k | k in m :: m[k] == WordsFor(rs, n, k))
  }

  lemma {:induction false} WordsOfRules(rs: seq<Rule>, n: nat, k: Bytes)
    requires n <= |rs| && !IsRule(rs, n, k)
    ensures WordsFor(rs, n, k) == []
    decreases n
  {
    if n > 0 {
      MoreRules(rs, n - 1, k);
      WordsOfRules(rs, n - 1, k);
    }
  }

  lemma {:induction false} FewerRules(rs: seq<Rule>, n: nat, k: Bytes)
    requires n < |rs|
    ensures IsRule(rs, n + 1, k) <==> IsRule(rs, n, k) || Reversed(rs[n].key) == k
    ensures IsPrefix(rs, n + 1, k) <==> IsPrefix(rs, n, k) || (k != [] && ProperPrefix(k, Reversed(rs[n].key)))
  {
    MoreRules(rs, n, k);
  }

  /** What one more rule does to the map. */
  lemma {:induction false} RuleEntry(m: Rules, r: Rule, closed: bool, k: Bytes)
    ensures var m', key := WithRule(m, r, closed), Reversed(r.key);
            && (k in m' <==> k in m || k == key || (closed && k != [] && ProperPrefix(k, key)))
            && (k in m' ==> m'[k] == (if k in m then m[k] else []) + if k == key then r.words else [])
  {
    var key := Reversed(r.key);
    var added := AddRule(m, key, r.words);
    if closed {
      PrefixesAdded(added, key, if key == [] then 0 else |key| - 1);
      if k != [] && ProperPrefix(k, key) { assert key[..|k|] == k; }
    }
    if k in m { assert m[k] + [] == m[k]; }
  }

  /** What the loader builds from any rules, whether or not their keys are distinct. */
  lemma {:induction false} BuiltCollects(rs: seq<Rule>, n: nat, closed: bool)
    requires n <= |rs|
    ensures Collects(Built(rs, n, closed), rs, n, closed)
    decreases n
  {
    if n > 0 {
      BuiltCollects(rs, n - 1, closed);
      forall k
        ensures k in Built(rs, n, closed) <==> IsRule(rs, n, k) || (closed && IsPrefix(rs, n, k))
        ensures k in Built(rs, n, closed) ==> Built(rs, n, closed)[k] == WordsFor(rs, n, k)
      {
        BuiltEntry(rs, n - 1, closed, k);
      }
    }
  }

  lemma {:induction false} BuiltEntry(rs: seq<Rule>, n: nat, closed: bool, k: Bytes)
    requires n < |rs|
    requires k in Built(rs, n, closed) <==> IsRule(rs, n, k) || (closed && IsPrefix(rs, n, k))
    requires k in Built(rs, n, closed) ==> Built(rs, n, closed)[k] == WordsFor(rs, n, k)
    ensures k in Built(rs, n + 1, closed) <==> IsRule(rs, n + 1, k) || (closed && IsPrefix(rs, n + 1, k))
    ensures k in Built(rs, n + 1, closed) ==> Built(rs, n + 1, closed)[k] == WordsFor(rs, n + 1, k)
  {
    RuleEntry(Built(rs, n, closed), rs[n], closed, k);
    FewerRules(rs, n, k);
    if k !in Built(rs, n, closed) { WordsOfRules(rs, n, k); }
  }

  // ---------- the data ----------

  ghost predicate AllCodes(ds: seq<Bytes>, ws: seq<Bytes>) {
    |ds| == |ws| && (ws == [] || (Codes(ds[0], ws[0]) && AllCodes(ds[1..], ws[1..])))
  }

  function CountByte(n: nat): Bytes
    requires n < 256
  {
    [n]
  }

  /** A coding of a rule: its key, the number of its words in one byte, and its words. */
  ghost predicate RuleCodes(d: Bytes, r: Rule) {
    |r.words| < 256 &&
    exists key, ds :: Codes(key, r.key) && AllCodes(ds, r.words) && d == key + (CountByte(|r.words|) + Joined(ds))
  }

  ghost predicate AllRuleCodes(ds: seq<Bytes>, rs: seq<Rule>) {
    |ds| == |rs| && (rs == [] || (RuleCodes(ds[0], rs[0]) && AllRuleCodes(ds[1..], rs[1..])))
  }

  /** Each rule has words, or a rule with the same key has had some. */
  ghost predicate HaveWords(rs: seq<Rule>, n: nat)
    requires n <= |rs|
  {
    forall i | n <= i < |rs| :: WordsFor(rs, i + 1, Reversed(rs[i].key)) != []
  }

  lemma {:induction false} WordsBack(data: Bytes, n: nat) returns (ds: seq<Bytes>)
    requires TakeWords(data, n).Some?
    ensures var (ws, rest) := TakeWords(data, n).value; data == Joined(ds) + rest && AllCodes(ds, ws) && |ws| == n
    decreases n
  {
    if n == 0 {
      ds := [];
      assert [] + data == data;
    } else {
      var (w, rest) := TakeText(data).value;
      var d := TextBack(data);
      var more := WordsBack(rest, n - 1);
      var (ws, last) := TakeWords(rest, n - 1).value;
      ds := [d] + more;
      assert ds[1..] == more && ([w] + ws)[1..] == ws;
      Assoc(d, Joined(more), last);
    }
  }

  lemma {:induction false} WordsTaken(ds: seq<Bytes>, ws: seq<Bytes>, rest: Bytes)
    requires AllCodes(ds, ws)
    ensures TakeWords(Joined(ds) + rest, |ws|) == Some((ws, rest))
    decreases |ws|
  {
    if ws == [] {
      assert [] + rest == rest;
    } else {
      var tail := Joined(ds[1..]) + rest;
      WordsTaken(ds[1..], ws[1..], rest);
      CodesTaken(ds[0], ws[0], tail);
      Assoc(ds[0], Joined(ds[1..]), rest);
      assert [ws[0]] + ws[1..] == ws;
    }
  }

  lemma {:induction false} RuleBack(data: Bytes) returns (d: Bytes)
    requires TakeRule(data).Some?
    ensures var (r, rest) := TakeRule(data).value; data == d + rest && RuleCodes(d, r)
  {
    var (r, last) := TakeRule(data).value;
    var (k, rest) := TakeText(data).value;
    var key := TextBack(data);
    var n, more := rest[0], rest[1..];
    assert rest == [n] + more;
    var ds := WordsBack(more, n);
    d := key + ([n] + Joined(ds));
    Assoc([n], Joined(ds), last);
    Assoc(key, [n] + Joined(ds), last);
    assert Codes(key, r.key) && AllCodes(ds, r.words) && d == key + (CountByte(|r.words|) + Joined(ds));
  }

  lemma {:induction false} RuleTaken(d: Bytes, r: Rule, rest: Bytes)
    requires RuleCodes(d, r)
    ensures TakeRule(d + rest) == Some((r, rest))
  {
    var key, ds :| Codes(key, r.key) && AllCodes(ds, r.words) && d == key + (CountByte(|r.words|) + Joined(ds));
    var body := Joined(ds) + rest;
    var n := CountByte(|r.words|);
    Assoc(n, Joined(ds), rest);
    Assoc(key, n + Joined(ds), rest);
    CodesTaken(key, r.key, n + body);
    Uncons(n[0], body);
    WordsTaken(ds, r.words, rest);
  }

  // ---------- one section ----------

  /** The entry of a rule when it is read is what the rules up to it have given its key. */
  lemma {:induction false} EntryAt(rs: seq<Rule>, n: nat, closed: bool)
    requires n < |rs|
    ensures var key := Reversed(rs[n].key);
            AddRule(Built(rs, n, closed), key, rs[n].words)[key] == WordsFor(rs, n + 1, key)
  {
    var key := Reversed(rs[n].key);
    BuiltCollects(rs, n, closed);
    if key !in Built(rs, n, closed) { WordsOfRules(rs, n, key); }
  }

  lemma {:induction false} BuiltPrefix(rs: seq<Rule>, more: seq<Rule>, n: nat, closed: bool)
    requires n <= |rs|
    ensures Built(rs + more, n, closed) == Built(rs, n, closed)
    decreases n
  {
    if n > 0 { BuiltPrefix(rs, more, n - 1, closed); }
  }

  /** Loading rules that are coded. */
  lemma {:induction false} CodedLoads(rs: seq<Rule>, n: nat, ds: seq<Bytes>, rest: Bytes, closed: bool)
    requires n <= |rs| && AllRuleCodes(ds, rs[n..]) && HaveWords(rs, n)
    ensures LoadRules(|rs| - n, Joined(ds) + rest, Built(rs, n, closed), closed) ==
            Some((Built(rs, |rs|, closed), rest))
    decreases |rs| - n
  {
    if n == |rs| {
      assert [] + rest == rest;
    } else {
      var tail := Joined(ds[1..]) + rest;
      assert rs[n..][0] == rs[n] && rs[n..][1..] == rs[n + 1..];
      RuleTaken(ds[0], rs[n], tail);
      Assoc(ds[0], Joined(ds[1..]), rest);
      EntryAt(rs, n, closed);
      CodedLoads(rs, n + 1, ds[1..], rest, closed);
    }
  }

  /** What is loaded behind the rules rs is the coding of more rules. */
  lemma {:induction false} LoadedIsCoded(count: nat, data: Bytes, rs: seq<Rule>, closed: bool, last: Bytes)
    returns (all: seq<Rule>, ds: seq<Bytes>)
    requires Leaves(count, data, rs, closed, last)
    ensures |all| == |rs| + count && rs <= all && AllRuleCodes(ds, all[|rs|..]) && HaveWords(all, |rs|)
    ensures data == Joined(ds) + last
    decreases count
  {
    if count == 0 {
      all, ds := rs, [];
      assert [] + data == data;
    } else {
      var r, d, rest := FirstLoaded(count, data, rs, closed, last);
      var more;
      all, more := LoadedIsCoded(count - 1, rest, rs + [r], closed, last);
      ds := [d] + more;
      CodedInFront(all, rs, r, d, more, rest, last);
    }
  }

  /** So many rules can be loaded behind the rules rs, and these are the data left then. */
  ghost predicate Leaves(count: nat, data: Bytes, rs: seq<Rule>, closed: bool, last: Bytes) {
    var r := LoadRules(count, data, Built(rs, |rs|, closed), closed);
    r.Some? && r.value.1 == last
  }

  lemma {:induction false} FirstLoaded(count: nat, data: Bytes, rs: seq<Rule>, closed: bool, last: Bytes)
    returns (r: Rule, d: Bytes, rest: Bytes)
    requires count > 0 && Leaves(count, data, rs, closed, last)
    ensures data == d + rest && RuleCodes(d, r) && WordsFor(rs + [r], |rs| + 1, Reversed(r.key)) != []
    ensures Leaves(count - 1, rest, rs + [r], closed, last)
  {
    r, rest := LoadFirst(count, data, Built(rs, |rs|, closed), closed);
    d := RuleBack(data);
    RuleBehind(rs, r, closed);
  }

  lemma {:induction false} LoadFirst(count: nat, data: Bytes, m: Rules, closed: bool) returns (r: Rule, rest: Bytes)
    requires count > 0 && LoadRules(count, data, m, closed).Some?
    ensures TakeRule(data) == Some((r, rest)) && AddRule(m, Reversed(r.key), r.words)[Reversed(r.key)] != []
    ensures LoadRules(count, data, m, closed) == LoadRules(count - 1, rest, WithRule(m, r, closed), closed)
  {
    r, rest := TakeRule(data).value.0, TakeRule(data).value.1;
  }

  lemma {:induction false} RuleBehind(rs: seq<Rule>, r: Rule, closed: bool)
    ensures var m, key := Built(rs, |rs|, closed), Reversed(r.key);
            && AddRule(m, key, r.words)[key] == WordsFor(rs + [r], |rs| + 1, key)
            && WithRule(m, r, closed) == Built(rs + [r], |rs + [r]|, closed)
  {
    BuiltPrefix(rs, [r], |rs|, closed);
    EntryAt(rs + [r], |rs|, closed);
  }

  lemma {:induction false} CodedInFront(all: seq<Rule>, rs: seq<Rule>, r: Rule, d: Bytes, more: seq<Bytes>,
      rest: Bytes, last: Bytes)
    requires rs + [r] <= all && RuleCodes(d, r) && WordsFor(rs + [r], |rs| + 1, Reversed(r.key)) != []
    requires AllRuleCodes(more, all[|rs + [r]|..]) && HaveWords(all, |rs + [r]|) && rest == Joined(more) + last
    ensures rs <= all && AllRuleCodes([d] + more, all[|rs|..]) && HaveWords(all, |rs|)
    ensures d + rest == Joined([d] + more) + last
  {
    assert all[|rs|] == (rs + [r])[|rs|] && all[..|rs|] == (rs + [r])[..|rs|] == rs;
    FirstCoded(all, |rs|, r, d, more);
    Assoc(d, Joined(more), last);
    WordsForPrefix(rs + [r], all, |rs| + 1, Reversed(r.key));
  }

  lemma {:induction false} FirstCoded(all: seq<Rule>, n: nat, r: Rule, d: Bytes, more: seq<Bytes>)
    requires n < |all| && all[n] == r && RuleCodes(d, r) && AllRuleCodes(more, all[n + 1..])
    ensures AllRuleCodes([d] + more, all[n..]) && Joined([d] + more) == d + Joined(more)
  {
    assert ([d] + more)[1..] == more && all[n..][1..] == all[n + 1..];
  }

  lemma {:induction false} WordsForPrefix(a: seq<Rule>, b: seq<Rule>, n: nat, k: Bytes)
    requires n <= |a| && a <= b
    ensures WordsFor(a, n, k) == WordsFor(b, n, k)
    decreases n
  {
    if n > 0 { WordsForPrefix(a, b, n - 1, k); }
  }

  /** A section is the number of its rules and their codings. */
  ghost predicate SectionCodes(data: Bytes, rs: seq<Rule>, rest: Bytes) {
    |rs| < LIMIT32 && HaveWords(rs, 0) &&
    exists ds :: AllRuleCodes(ds, rs) && data == Number(|rs|) + (Joined(ds) + rest)
  }

  lemma {:induction false} SectionLoads(data: Bytes, rs: seq<Rule>, rest: Bytes, closed: bool)
    requires SectionCodes(data, rs, rest)
    ensures LoadSection(data, closed) == Some((Built(rs, |rs|, closed), rest))
  {
    var ds :| AllRuleCodes(ds, rs) && data == Number(|rs|) + (Joined(ds) + rest);
    NumberRoundTrip(|rs|, Joined(ds) + rest);
    assert rs[0..] == rs;
    CodedLoads(rs, 0, ds, rest, closed);
  }

  lemma {:induction false} SectionBack(data: Bytes, closed: bool) returns (rs: seq<Rule>)
    requires LoadSection(data, closed).Some?
    ensures SectionCodes(data, rs, LoadSection(data, closed).value.1)
  {
    var (n, rest) := TakeNumber(data).value;
    NumberBack(data);
    var ds;
    rs, ds := LoadedIsCoded(n, rest, [], closed, LoadSection(data, closed).value.1);
    assert rs[0..] == rs && AllRuleCodes(ds, rs);
  }

  // ---------- the whole ----------

  /** The data of a splitter: full rules, suffix rules since version 2, and nothing after them. */
  ghost predicate SplitterCodes(version: nat, data: Bytes, full: seq<Rule>, suffix: seq<Rule>) {
    if version < 2 then SectionCodes(data, full, []) && suffix == []
    else exists rest :: SectionCodes(data, full, rest) && SectionCodes(rest, suffix, [])
  }

  /** Loading succeeds if and only if the data are codings of rules to their end. */
  lemma {:induction false} LoadExactly(version: nat, data: Bytes)
    ensures Load(version, data).Some? <==> exists full, suffix :: SplitterCodes(version, data, full, suffix)
  {
    if Load(version, data).Some? {
      var full, suffix := LoadBack(version, data);
      assert SplitterCodes(version, data, full, suffix);
    }
    if full, suffix :| SplitterCodes(version, data, full, suffix) { CodesLoad(version, data, full, suffix); }
  }

  lemma {:induction false} LoadBack(version: nat, data: Bytes) returns (full: seq<Rule>, suffix: seq<Rule>)
    requires Load(version, data).Some?
    ensures SplitterCodes(version, data, full, suffix)
  {
    full := SectionBack(data, false);
    suffix := [];
    if version >= 2 { suffix := SectionBack(LoadSection(data, false).value.1, true); }
  }

  /** ... and then the splitter holds exactly these rules, with the words of all rules of a key in order. */
  lemma {:induction false} CodesLoad(version: nat, data: Bytes, full: seq<Rule>, suffix: seq<Rule>)
    requires SplitterCodes(version, data, full, suffix)
    ensures Load(version, data).Some?
    ensures var r := Load(version, data).value;
            Collects(r.0, full, |full|, false) && Collects(r.1, suffix, |suffix|, true)
  {
    BuiltCollects(full, |full|, false);
    BuiltCollects(suffix, |suffix|, true);
    if version < 2 {
      SectionLoads(data, full, [], false);
    } else {
      var rest :| SectionCodes(data, full, rest) && SectionCodes(rest, suffix, []);
      SectionLoads(data, full, rest, false);
      SectionLoads(rest, suffix, [], true);
    }
  }
}
