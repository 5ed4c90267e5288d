/** UTF-8 as src/unilib/utf8.h and utf8.cpp code it: section 3 of RFC 3629, widened to 0x1FFFFF, with a
    question mark for every byte sequence that does not decode. Code points are numbers, strings are bytes. */
module Utf8 {
  import opened Sequences

  type byte = x: int | 0 <= x < 256 witness 0
  type Bytes = seq<byte>

  const REPLACEMENT: byte := 0x3F
  const LIMIT := 0x20_0000

  // ---------- one code point ----------

  /** The bytes appended for one code point. */
  function Encode(chr: nat): (r: Bytes)
    ensures 1 <= |r| <= 4
  {
    if chr < 0x80 then [chr]
    else if chr < 0x800 then [0xC0 + chr / 0x40, 0x80 + chr % 0x40]
    else if chr < 0x1_0000 then [0xE0 + chr / 0x1000, 0x80 + chr / 0x40 % 0x40, 0x80 + chr % 0x40]
    else if chr < LIMIT then
      [0xF0 + chr / 0x4_0000, 0x80 + chr / 0x1000 % 0x40, 0x80 + chr / 0x40 % 0x40, 0x80 + chr % 0x40]
    else [REPLACEMENT]
  }

  predicate Continues(s: Bytes, k: nat) { k < |s| && 0x80 <= s[k] < 0xC0 }

  /** How many bytes the length-bounded decoder takes, and whether they form a code point. */
  function Step(s: Bytes): (r: (nat, bool))
    requires s != []
    ensures 1 <= r.0 <= 4 && r.0 <= |s|
  {
    if s[0] < 0x80 then (1, true)
    else if s[0] < 0xC0 then (1, false)
    else if s[0] < 0xE0 then (if Continues(s, 1) then (2, true) else (1, false))
    else if s[0] < 0xF0 then
      if !Continues(s, 1) then (1, false) else if !Continues(s, 2) then (2, false) else (3, true)
    else if s[0] < 0xF8 then
      if !Continues(s, 1) then (1, false)
      else if !Continues(s, 2) then (2, false)
      else if !Continues(s, 3) then (3, false)
      else (4, true)
    else (1, false)
  }

  /** The payload bits of a byte, the low ones up to the factor m. */
  function Low(b: byte, m: nat): (r: nat)
    requires m > 0
    ensures r < m && r <= b
  {
    b as int % m
  }

  /** The first code point of a string. */
  function First(s: Bytes): (chr: nat)
    requires s != []
    ensures chr < LIMIT
  {
    var (n, ok) := Step(s);
    if !ok then REPLACEMENT
    else if n == 1 then s[0]
    else if n == 2 then Low(s[0], 0x20) * 0x40 + Low(s[1], 0x40)
    else if n == 3 then Low(s[0], 0x10) * 0x1000 + Low(s[1], 0x40) * 0x40 + Low(s[2], 0x40)
    else Low(s[0], 8) * 0x4_0000 + Low(s[1], 0x40) * 0x1000 + Low(s[2], 0x40) * 0x40 + Low(s[3], 0x40)
  }

  /** The lead bits of a byte and the factor of the payload below them. */
  predicate Lead(base: nat, m: nat) {
    || (base == 0x80 && m == 0x40) || (base == 0xC0 && m == 0x20) || (base == 0xE0 && m == 0x10)
    || (base == 0xF0 && m == 8)
  }

  lemma {:induction false} LowOf(base: nat, v: nat, m: nat)
    requires Lead(base, m) && v < m
    ensures base + v < 256 && Low(base + v, m) == v
  {
    if m == 0x40 { assert (0x80 + v) % 0x40 == v; }
    if m == 0x20 { assert (0xC0 + v) % 0x20 == v; }
    if m == 0x10 { assert (0xE0 + v) % 0x10 == v; }
    if m == 8 { assert (0xF0 + v) % 8 == v; }
  }

  /** Dividing by 0x40 repeatedly. */
  lemma {:induction false} Divisions(x: nat)
    ensures x / 0x1000 == x / 0x40 / 0x40
    ensures x / 0x4_0000 == x / 0x1000 / 0x40
  {
    var q, r := x / 0x40, x % 0x40;
    assert x == 0x40 * q + r;
    var p, t := q / 0x40, q % 0x40;
    assert q == 0x40 * p + t;
    assert x == 0x1000 * p + (0x40 * t + r);
    var u, v := p / 0x40, p % 0x40;
    assert p == 0x40 * u + v;
    assert x == 0x4_0000 * u + (0x1000 * v + 0x40 * t + r);
  }

  lemma {:induction false} Digits(chr: nat)
    ensures chr == chr / 0x40 * 0x40 + chr % 0x40
    ensures chr == chr / 0x1000 * 0x1000 + chr / 0x40 % 0x40 * 0x40 + chr % 0x40
    ensures chr == chr / 0x4_0000 * 0x4_0000 + chr / 0x1000 % 0x40 * 0x1000 + chr / 0x40 % 0x40 * 0x40 + chr % 0x40
  {
    Divisions(chr);
    var q, p := chr / 0x40, chr / 0x1000;
    assert q == q / 0x40 * 0x40 + q % 0x40;
    assert p == p / 0x40 * 0x40 + p % 0x40;
  }

  /** Decoding what was encoded is the identity below the limit, whatever follows. */
  lemma {:induction false} DecodeEncode(chr: nat, rest: Bytes)
    requires chr < LIMIT
    ensures Step(Encode(chr) + rest) == (|Encode(chr)|, true) && First(Encode(chr) + rest) == chr
  {
    Digits(chr);
    var c0, c1, c2 := chr % 0x40, chr / 0x40 % 0x40, chr / 0x1000 % 0x40;
    LowOf(0x80, c0, 0x40);
    LowOf(0x80, c1, 0x40);
    LowOf(0x80, c2, 0x40);
    if chr < 0x80 {
    } else if chr < 0x800 {
      LowOf(0xC0, chr / 0x40, 0x20);
    } else if chr < 0x1_0000 {
      LowOf(0xE0, chr / 0x1000, 0x10);
    } else {
      LowOf(0xF0, chr / 0x4_0000, 8);
    }
  }

  /** The examples of section 7 of RFC 3629. */
  lemma {:induction false} KnownCodings()
    ensures Encode(0x41) == [0x41] && Encode(0x2262) == [0xE2, 0x89, 0xA2] && Encode(0x391) == [0xCE, 0x91]
    ensures Encode(0xD55C) == [0xED, 0x95, 0x9C] && Encode(0x65E5) == [0xE6, 0x97, 0xA5]
    ensures Encode(0xFEFF) == [0xEF, 0xBB, 0xBF] && Encode(0x2_33B4) == [0xF0, 0xA3, 0x8E, 0xB4]
  {
  }

  /** The bytes taken form a code point in its shortest coding. */
  predicate Shortest(s: Bytes)
    requires s != []
  {
    var (n, ok) := Step(s);
    ok && (n == 2 ==> First(s) >= 0x80) && (n == 3 ==> First(s) >= 0x800) && (n == 4 ==> First(s) >= 0x1_0000)
  }

  /** A number is determined by its digits in base 0x40. */
  lemma {:induction false} DigitsUnique(a: nat, c: nat)
    requires c < 0x40
    ensures (a * 0x40 + c) / 0x40 == a && (a * 0x40 + c) % 0x40 == c
  {
  }

  lemma {:induction false} DigitsUnique3(a: nat, b: nat, c: nat)
    requires b < 0x40 && c < 0x40
    ensures var x := a * 0x1000 + b * 0x40 + c; x / 0x1000 == a && x / 0x40 % 0x40 == b && x % 0x40 == c
  {
    DigitsUnique(a * 0x40 + b, c);
    DigitsUnique(a, b);
    Divisions(a * 0x1000 + b * 0x40 + c);
    assert (a * 0x40 + b) * 0x40 + c == a * 0x1000 + b * 0x40 + c;
  }

  lemma {:induction false} DigitsUnique4(a: nat, b: nat, c: nat, d: nat)
    requires b < 0x40 && c < 0x40 && d < 0x40
    ensures var x := a * 0x4_0000 + b * 0x1000 + c * 0x40 + d;
            x / 0x4_0000 == a && x / 0x1000 % 0x40 == b && x / 0x40 % 0x40 == c && x % 0x40 == d
  {
    DigitsUnique3(a * 0x40 + b, c, d);
    DigitsUnique(a, b);
    Divisions(a * 0x4_0000 + b * 0x1000 + c * 0x40 + d);
    assert (a * 0x40 + b) * 0x1000 + c * 0x40 + d == a * 0x4_0000 + b * 0x1000 + c * 0x40 + d;
  }

  lemma {:induction false} LowRestores(b: byte, base: nat, m: nat)
    requires Lead(base, m)
    requires base <= b < base + m
    ensures base + Low(b, m) == b
  {
    LowOf(base, b - base, m);
  }

  /** Encoding what was decoded gives the bytes back exactly for shortest codings; otherwise already the first byte
      differs. */
  lemma {:induction false} EncodeDecode(s: Bytes)
    requires s != []
    ensures if Shortest(s) then Encode(First(s)) == s[..Step(s).0] else Encode(First(s))[0] != s[0]
  {
    var (n, ok) := Step(s);
    if ok {
      if n >= 2 { LowRestores(s[1], 0x80, 0x40); }
      if n >= 3 { LowRestores(s[2], 0x80, 0x40); }
      if n == 2 {
        LowRestores(s[0], 0xC0, 0x20);
        DigitsUnique(Low(s[0], 0x20), Low(s[1], 0x40));
      } else if n == 3 {
        LowRestores(s[0], 0xE0, 0x10);
        DigitsUnique3(Low(s[0], 0x10), Low(s[1], 0x40), Low(s[2], 0x40));
      } else if n == 4 {
        LowRestores(s[3], 0x80, 0x40);
        LowRestores(s[0], 0xF0, 8);
        DigitsUnique4(Low(s[0], 8), Low(s[1], 0x40), Low(s[2], 0x40), Low(s[3], 0x40));
      }
    }
  }

  // ---------- strings ----------

  function DecodeAll(s: Bytes): (r: seq<nat>)
    ensures forall i | 0 <= i < |r| :: r[i] < LIMIT
  {
    if s == [] then [] else [First(s)] + DecodeAll(s[Step(s).0..])
  }

  function EncodeAll(cs: seq<nat>): Bytes {
    if cs == [] then [] else Encode(cs[0]) + EncodeAll(cs[1..])
  }

  ghost predicate Codable(cs: seq<nat>) {
    forall i | 0 <= i < |cs| :: cs[i] < LIMIT
  }

  /** The bytes of a code point, then the rest. */
  lemma {:induction false} DecodeFront(chr: nat, rest: Bytes)
    requires chr < LIMIT
    ensures DecodeAll(Encode(chr) + rest) == [chr] + DecodeAll(rest)
  {
    DecodeEncode(chr, rest);
    assert (Encode(chr) + rest)[|Encode(chr)|..] == rest;
  }

  lemma {:induction false} DecodeEncodeAll(cs: seq<nat>)
    requires Codable(cs)
    ensures DecodeAll(EncodeAll(cs)) == cs
    decreases |cs|
  {
    if cs != [] {
      DecodeEncodeAll(cs[1..]);
      DecodeFront(cs[0], EncodeAll(cs[1..]));
    }
  }

  /** Different strings of code points have different encodings. */
  lemma {:induction false} EncodingInjective(a: seq<nat>, b: seq<nat>)
    requires Codable(a) && Codable(b) && EncodeAll(a) == EncodeAll(b)
    ensures a == b
  {
    DecodeEncodeAll(a);
    DecodeEncodeAll(b);
  }

  predicate AllShortest(s: Bytes) {
    s == [] || (Shortest(s) && AllShortest(s[Step(s).0..]))
  }

  /** Re-encoding a decoded string restores it if and only if every coding in it is the shortest one. */
  lemma {:induction false} EncodeDecodeAll(s: Bytes)
    ensures EncodeAll(DecodeAll(s)) == s <==> AllShortest(s)
    decreases |s|
  {
    if s != [] {
      var n := Step(s).0;
      var rest := s[n..];
      EncodeDecodeAll(rest);
      EncodeDecode(s);
      assert s == s[..n] + rest;
      var e := EncodeAll(DecodeAll(s));
      assert DecodeAll(s)[1..] == DecodeAll(rest);
      assert e == Encode(First(s)) + EncodeAll(DecodeAll(rest));
      if Shortest(s) {
        assert e[n..] == EncodeAll(DecodeAll(rest)) && s[n..] == rest;
      } else {
        assert e[0] == Encode(First(s))[0];
      }
    }
  }

  /** valid: every unit is a code point; overlong codings pass. */
  predicate Valid(s: Bytes) {
    s == [] || (Step(s).1 && Valid(s[Step(s).0..]))
  }

  lemma {:induction false} EncodedIsValid(cs: seq<nat>)
    requires Codable(cs)
    ensures Valid(EncodeAll(cs))
    decreases |cs|
  {
    if cs != [] {
      var rest := EncodeAll(cs[1..]);
      EncodedIsValid(cs[1..]);
      DecodeEncode(cs[0], rest);
      assert (Encode(cs[0]) + rest)[|Encode(cs[0])|..] == rest;
    }
  }

  /** A string is valid whenever it is shortest; the converse fails on an overlong coding. */
  lemma {:induction false} ShortestIsValid(s: Bytes)
    requires AllShortest(s)
    ensures Valid(s)
    decreases |s|
  {
    if s != [] { ShortestIsValid(s[Step(s).0..]); }
  }

  lemma {:induction false} OverlongIsValid()
    ensures Valid([0xC0, 0x80]) && !AllShortest([0xC0, 0x80])
  {
    var s: Bytes := [0xC0, 0x80];
    assert s[2..] == [];
  }

  /** How many continuation bytes a lead byte asks for. */
  function Wanted(lead: byte): nat {
    if 0xC0 <= lead < 0xE0 then 1 else if 0xE0 <= lead < 0xF0 then 2 else if 0xF0 <= lead < 0xF8 then 3 else 0
  }

  /** The continuation bytes at the front, counted up to a limit. */
  function Following(s: Bytes, limit: nat): (n: nat)
    ensures n <= |s| && n <= limit
  {
    if limit == 0 || !Continues(s, 0) then 0 else 1 + Following(s[1..], limit - 1)
  }

  lemma {:induction false} FollowingAt(s: Bytes, limit: nat)
    ensures forall k | 0 <= k < Following(s, limit) :: Continues(s, k)
    ensures Following(s, limit) < limit ==> !Continues(s, Following(s, limit))
    decreases limit
  {
    if limit > 0 && Continues(s, 0) {
      FollowingAt(s[1..], limit - 1);
      forall k | 0 <= k < Following(s, limit) ensures Continues(s, k) {
        if k > 0 { assert Continues(s[1..], k - 1); }
      }
    }
  }

  /** The decoder takes the lead byte and the continuation bytes behind it, as many as it asks for and no other byte; it
      finds a code point if and only if they are all there, and else a question mark. */
  lemma {:induction false} StepTakes(s: Bytes)
    requires s != []
    ensures var n := Following(s[1..], Wanted(s[0]));
            Step(s).0 == 1 + n && (Step(s).1 <==> n == Wanted(s[0]) && !(0x80 <= s[0] < 0xC0) && s[0] < 0xF8)
    ensures !Step(s).1 ==> First(s) == '?' as int
  {
    FollowingAt(s[1..], Wanted(s[0]));
    assert forall k | 1 <= k :: Continues(s, k) <==> Continues(s[1..], k - 1);
  }

  /** A lead byte and its continuation bytes, as in section 3 of RFC 3629. */
  predicate Coding(u: Bytes) {
    && 1 <= |u| <= 4 && (if |u| == 1 then u[0] < 0x80 else Wanted(u[0]) == |u| - 1)
    && forall k | 1 <= k < |u| :: 0x80 <= u[k] < 0xC0
  }

  predicate AllCodings(us: seq<Bytes>) { us == [] || (Coding(us[0]) && AllCodings(us[1..])) }

  function Joined(us: seq<Bytes>): Bytes { if us == [] then [] else us[0] + Joined(us[1..]) }

  lemma {:induction false} CodingStep(u: Bytes, rest: Bytes)
    requires Coding(u)
    ensures Step(u + rest) == (|u|, true)
  {
    var s := u + rest;
    assert forall k | 1 <= k < |u| :: s[k] == u[k] && Continues(s, k);
  }

  lemma {:induction false} StepCoding(s: Bytes)
    requires s != [] && Step(s).1
    ensures Coding(s[..Step(s).0])
  {
  }

  lemma {:induction false} ValidSplits(s: Bytes) returns (us: seq<Bytes>)
    requires Valid(s)
    ensures AllCodings(us) && Joined(us) == s
    decreases |s|
  {
    us := [];
    if s != [] {
      var n := Step(s).0;
      var more := ValidSplits(s[n..]);
      StepCoding(s);
      us := [s[..n]] + more;
      assert us[1..] == more && s[..n] + s[n..] == s;
    }
  }

  lemma {:induction false} JoinedIsValid(us: seq<Bytes>)
    requires AllCodings(us)
    ensures Valid(Joined(us))
    decreases |us|
  {
    if us != [] {
      var rest := Joined(us[1..]);
      JoinedIsValid(us[1..]);
      CodingStep(us[0], rest);
      assert (us[0] + rest)[|us[0]|..] == rest;
    }
  }

  /** A string is valid if and only if it is a row of lead bytes with their continuation bytes. */
  lemma {:induction false} ValidExactly(s: Bytes)
    ensures Valid(s) <==> exists us :: AllCodings(us) && Joined(us) == s
  {
    if Valid(s) {
      var us := ValidSplits(s);
      assert AllCodings(us) && Joined(us) == s;
    } else {
      forall us | AllCodings(us) ensures Joined(us) != s { JoinedIsValid(us); }
    }
  }

  // ---------- the loops ----------

  /** The decoder: the pointer and the remaining length move together, by one to four bytes. */
  method Decode(str: Bytes, pos: nat, len: nat) returns (chr: nat, pos': nat, len': nat)
    requires 0 < len && pos + len <= |str|
    ensures 1 <= pos' - pos == len - len' <= 4
    ensures chr == First(str[pos..pos + len]) && pos' - pos == Step(str[pos..pos + len]).0
  {
    ghost var s := str[pos..pos + len];
    pos', len' := pos, len - 1;
    var lead := str[pos'];
    pos' := pos' + 1;
    if lead < 0x80 { return lead, pos', len'; }
    if lead < 0xC0 || lead >= 0xF8 { return REPLACEMENT, pos', len'; }
    var more := if lead < 0xE0 then 1 else if lead < 0xF0 then 2 else 3;
    chr := if more == 1 then Low(lead, 0x20) else if more == 2 then Low(lead, 0x10) else Low(lead, 8);
    ghost var high := chr;
    var k := 0;
    while k < more
      invariant 0 <= k <= more && pos' == pos + 1 + k && len' == len - 1 - k
      invariant forall j | 1 <= j <= k :: Continues(s, j)
      invariant k == 0 ==> chr == high
      invariant k == 1 ==> chr == high * 0x40 + Low(s[1], 0x40)
      invariant k == 2 ==> chr == (high * 0x40 + Low(s[1], 0x40)) * 0x40 + Low(s[2], 0x40)
      invariant k == 3 ==> chr == ((high * 0x40 + Low(s[1], 0x40)) * 0x40 + Low(s[2], 0x40)) * 0x40 + Low(s[3], 0x40)
    {
      if len' <= 0 || str[pos'] < 0x80 || str[pos'] >= 0xC0 {
        assert !Continues(s, k + 1);
        return REPLACEMENT, pos', len';
      }
      assert s[k + 1] == str[pos'];
      chr := chr * 0x40 + Low(str[pos'], 0x40);
      pos', len', k := pos' + 1, len' - 1, k + 1;
    }
  }

  method DecodeString(str: Bytes) returns (decoded: seq<nat>)
    ensures decoded == DecodeAll(str)
  {
    decoded := [];
    var pos, len := 0, |str|;
    while len > 0
      invariant 0 <= len && pos + len == |str|
      invariant decoded + DecodeAll(str[pos..]) == DecodeAll(str)
      decreases len
    {
      ghost var s := str[pos..];
      assert s == str[pos..pos + len];
      var chr;
      chr, pos, len := Decode(str, pos, len);
      assert s[Step(s).0..] == str[pos..];
      decoded := decoded + [chr];
    }
  }

  method EncodeString(cs: seq<nat>) returns (encoded: Bytes)
    ensures encoded == EncodeAll(cs)
  {
    encoded := [];
    for k := 0 to |cs|
      invariant encoded + EncodeAll(cs[k..]) == EncodeAll(cs)
    {
      assert cs[k..][1..] == cs[k + 1..];
      Assoc(encoded, Encode(cs[k]), EncodeAll(cs[k + 1..]));
      encoded := encoded + Encode(cs[k]);
    }
  }

  /** The byte loop of valid. */
  method IsValid(str: Bytes) returns (r: bool)
    ensures r == Valid(str)
  {
    var s := str;
    while s != []
      invariant Valid(s) == Valid(str)
      decreases |s|
    {
      var n := if s[0] < 0x80 then 1 else if s[0] < 0xC0 then 0 else if s[0] < 0xE0 then 2 else if s[0] < 0xF0 then 3
          else if s[0] < 0xF8 then 4 else 0;
      if n == 0 { return false; }
      var k := 1;
      while k < n
        invariant 1 <= k <= n
        invariant forall j | 1 <= j < k :: Continues(s, j)
      {
        if k == |s| || s[k] < 0x80 || s[k] >= 0xC0 { return false; }
        k := k + 1;
      }
      s := s[n..];
    }
    return true;
  }

  // ---------- map ----------

  /** utf8::map: decode, apply f, encode. */
  function MapCodes(f: nat -> nat, cs: seq<nat>): (r: seq<nat>)
    ensures |r| == |cs| && forall i | 0 <= i < |cs| :: r[i] == f(cs[i])
  {
    seq(|cs|, i requires 0 <= i < |cs| => f(cs[i]))
  }

  function Map(f: nat -> nat, s: Bytes): Bytes { EncodeAll(MapCodes(f, DecodeAll(s))) }

  /** Mapping twice with the same idempotent f is mapping once, when f stays below the limit. */
  lemma {:induction false} MapIdempotent(f: nat -> nat, s: Bytes)
    requires forall c: nat | c < LIMIT :: f(c) < LIMIT && f(f(c)) == f(c)
    ensures Map(f, Map(f, s)) == Map(f, s)
  {
    var cs := MapCodes(f, DecodeAll(s));
    DecodeEncodeAll(cs);
    assert MapCodes(f, cs) == cs;
  }
}
