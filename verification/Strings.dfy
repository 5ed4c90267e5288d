/** Splitting, joining and decimal numbers, shared by the text formats (src/utils/split.h, src/utils/parse_int.h and
    std::to_string). Splitting is stated as the inverse of joining, on fields without the separator. Digits are scanned
    with an accumulator that is checked before each step, both for size_t in the token ranges and for int, whose lower
    bound is one further from zero than its upper one. */
module Strings {
  import opened Sentences
  import opened Sequences

  // ---------- split and join ----------

  /** Where `sep` first occurs, or the length when it does not. */
  function IndexOf(s: string, sep: char): (k: nat)
    ensures k <= |s| && (k < |s| ==> s[k] == sep)
  {
    if s == "" || s[0] == sep then 0 else 1 + IndexOf(s[1..], sep)
  }

  lemma {:induction false} NoneBefore(s: string, sep: char)
    ensures sep !in s[..IndexOf(s, sep)]
    decreases |s|
  {
    if s != "" && s[0] != sep {
      NoneBefore(s[1..], sep);
      assert s[..IndexOf(s, sep)] == [s[0]] + s[1..][..IndexOf(s[1..], sep)];
    }
  }

  function Split(s: string, sep: char): (r: seq<string>)
    ensures r != []
    decreases |s|
  {
    var k := IndexOf(s, sep);
    if k == |s| then [s] else [s[..k]] + Split(s[k + 1..], sep)
  }

  function Join(fields: seq<string>, sep: char): string {
    if fields == [] then ""
    else if |fields| == 1 then fields[0]
    else fields[0] + [sep] + Join(fields[1..], sep)
  }

  ghost predicate Free(fields: seq<string>, sep: char) {
    forall i | 0 <= i < |fields| :: sep !in fields[i]
  }

  lemma {:induction false} SplitFree(s: string, sep: char)
    ensures Free(Split(s, sep), sep)
    decreases |s|
  {
    var k := IndexOf(s, sep);
    NoneBefore(s, sep);
    if k == |s| {
      assert s[..k] == s;
    } else {
      SplitFree(s[k + 1..], sep);
    }
  }

  lemma {:induction false} IndexAtSeparator(a: string, sep: char, rest: string)
    requires sep !in a
    ensures IndexOf(a + [sep] + rest, sep) == |a|
    ensures IndexOf(a, sep) == |a|
    decreases |a|
  {
    if a != "" {
      assert a[0] in a && (a + [sep] + rest)[1..] == a[1..] + [sep] + rest;
      IndexAtSeparator(a[1..], sep, rest);
    }
  }

  lemma {:induction false} SplitJoin(fields: seq<string>, sep: char)
    requires fields != [] && Free(fields, sep)
    ensures Split(Join(fields, sep), sep) == fields
    decreases |fields|
  {
    if |fields| == 1 {
      IndexAtSeparator(fields[0], sep, "");
    } else {
      var rest := Join(fields[1..], sep);
      IndexAtSeparator(fields[0], sep, rest);
      var s := fields[0] + [sep] + rest;
      assert s[..|fields[0]|] == fields[0] && s[|fields[0]| + 1..] == rest;
      SplitJoin(fields[1..], sep);
    }
  }

  lemma {:induction false} JoinSplit(s: string, sep: char)
    ensures Join(Split(s, sep), sep) == s
    decreases |s|
  {
    var k := IndexOf(s, sep);
    if k < |s| {
      JoinSplit(s[k + 1..], sep);
      assert s == s[..k] + [sep] + s[k + 1..];
    }
  }

  lemma {:induction false} JoinAppend(fields: seq<string>, x: string, sep: char)
    requires fields != []
    ensures Join(fields + [x], sep) == Join(fields, sep) + [sep] + x
    decreases |fields|
  {
    if |fields| > 1 {
      JoinAppend(fields[1..], x, sep);
      assert (fields + [x])[1..] == fields[1..] + [x];
    } else {
      assert (fields + [x])[1..] == [x];
    }
  }

  lemma {:induction false} SplitStep(text: string, sep: char, str: nat, next: nat)
    requires str <= next <= |text| && next == str + IndexOf(text[str..], sep)
    ensures Split(text[str..], sep) ==
            if next == |text| then [text[str..]] else [text[str..next]] + Split(text[next + 1..], sep)
  {
    if next < |text| { Reslice(text, str, next); }
  }

  lemma {:induction false} Reslice(text: string, str: nat, next: nat)
    requires str <= next < |text|
    ensures text[str..][..next - str] == text[str..next] && text[str..][next - str + 1..] == text[next + 1..]
  {
  }

  /** The tokens so far and the fields from str on are all fields. */
  ghost predicate Splitting(text: string, sep: char, str: nat, tokens: seq<string>, all: seq<string>) {
    str <= |text| && tokens + Split(text[str..], sep) == all
  }

  lemma {:induction false} SplittingNext(text: string, sep: char, str: nat, next: nat, tokens: seq<string>,
      all: seq<string>)
    requires str <= next < |text| && next == str + IndexOf(text[str..], sep) && Splitting(text, sep, str, tokens, all)
    ensures Splitting(text, sep, next + 1, tokens + [text[str..next]], all)
  {
    SplitStep(text, sep, str, next);
    Assoc(tokens, [text[str..next]], Split(text[next + 1..], sep));
  }

  /** The splitting loop. Empty text has no tokens at all. */
  method SplitText(text: string, sep: char) returns (tokens: seq<string>)
    ensures tokens == if text == "" then [] else Split(text, sep)
  {
    tokens := [];
    if text == "" { return; }
    var str: nat := 0;
    var next := Find(text, sep, str);
    ghost var all := Split(text, sep);
    assert text[0..] == text && [] + all == all;
    while next < |text|
      invariant 0 <= str <= next <= |text|
      invariant next == str + IndexOf(text[str..], sep)
      invariant Splitting(text, sep, str, tokens, all)
      decreases |text| - next
    {
      SplittingNext(text, sep, str, next, tokens, all);
      tokens := tokens + [text[str..next]];
      str := next + 1;
      next := Find(text, sep, str);
    }
    SplitStep(text, sep, str, next);
    tokens := tokens + [text[str..]];
  }

  /** std::string::find of one character, |s| standing for npos. */
  method Find(s: string, c: char, from: nat) returns (k: nat)
    requires from <= |s|
    ensures k == from + IndexOf(s[from..], c)
  {
    k := from;
    while k < |s| && s[k] != c
      invariant from <= k <= |s|
      invariant k + IndexOf(s[k..], c) == from + IndexOf(s[from..], c)
    {
      assert s[k..][1..] == s[k + 1..];
      k := k + 1;
    }
  }

  // ---------- decimal numbers ----------

  predicate IsDigit(c: char) { '0' <= c <= '9' }

  function DigitValue(c: char): (d: nat)
    requires IsDigit(c)
    ensures d < 10
  {
    c as int - '0' as int
  }

  function Digit(d: nat): (c: char)
    requires d < 10
    ensures IsDigit(c) && DigitValue(c) == d
  {
    ('0' as int + d) as char
  }

  function ToDecimal(n: nat): (s: string)
    ensures s != "" && forall c | c in s :: IsDigit(c)
  {
    if n < 10 then [Digit(n)] else ToDecimal(n / 10) + [Digit(n % 10)]
  }

  /** Reads digits into `acc` the way the loops of the source do: stops at the first other character,
      and gives up where the next step would pass `max`. */
  function ScanDigits(s: string, acc: nat, max: nat): Option<(nat, string)>
    requires max >= 9
  {
    if s == "" || !IsDigit(s[0]) then Some((acc, s))
    else if acc > (max - DigitValue(s[0])) / 10 then None
    else ScanDigits(s[1..], 10 * acc + DigitValue(s[0]), max)
  }

  /** The overflow guard is exact. */
  lemma {:induction false} GuardExact(acc: nat, d: nat, max: nat)
    requires max >= 9 && d < 10
    ensures acc > (max - d) / 10 <==> 10 * acc + d > max
  {
  }

  /** The number a digit string denotes after `acc`. */
  function Denotes(s: string, acc: nat): nat
    requires forall c | c in s :: IsDigit(c)
  {
    if s == "" then acc
    else
      assert s[0] in s && forall c | c in s[1..] :: c in s;
      Denotes(s[1..], 10 * acc + DigitValue(s[0]))
  }

  lemma {:induction false} DenotesGrows(s: string, acc: nat)
    requires forall c | c in s :: IsDigit(c)
    ensures Denotes(s, acc) >= acc
    decreases |s|
  {
    if s != "" {
      assert s[0] in s && forall c | c in s[1..] :: c in s;
      DenotesGrows(s[1..], 10 * acc + DigitValue(s[0]));
    }
  }

  /** Scanning is exact: it succeeds if and only if the number fits, and then yields it. */
  lemma {:induction false} ScanExact(s: string, acc: nat, max: nat, rest: string)
    requires max >= 9 && acc <= max && forall c | c in s :: IsDigit(c)
    requires rest == "" || !IsDigit(rest[0])
    ensures ScanDigits(s + rest, acc, max) ==
            if Denotes(s, acc) <= max then Some((Denotes(s, acc), rest)) else None
    decreases |s|
  {
    if s == "" {
      assert s + rest == rest;
    } else {
      assert s[0] in s && forall c | c in s[1..] :: c in s;
      assert (s + rest)[1..] == s[1..] + rest;
      var d := DigitValue(s[0]);
      GuardExact(acc, d, max);
      DenotesGrows(s[1..], 10 * acc + d);
      if 10 * acc + d <= max { ScanExact(s[1..], 10 * acc + d, max, rest); }
    }
  }

  lemma {:induction false} DenotesAppend(s: string, c: char, acc: nat)
    requires IsDigit(c) && forall x | x in s :: IsDigit(x)
    ensures forall x | x in s + [c] :: IsDigit(x)
    ensures Denotes(s + [c], acc) == 10 * Denotes(s, acc) + DigitValue(c)
    decreases |s|
  {
    if s == "" {
      assert s + [c] == [c] && [c][1..] == "";
    } else {
      assert s[0] in s && forall x | x in s[1..] :: x in s;
      assert (s + [c])[1..] == s[1..] + [c];
      DenotesAppend(s[1..], c, 10 * acc + DigitValue(s[0]));
    }
  }

  lemma {:induction false} DecimalDenotes(n: nat)
    ensures Denotes(ToDecimal(n), 0) == n
  {
    if n < 10 {
      assert [Digit(n)][1..] == "";
    } else {
      DecimalDenotes(n / 10);
      DenotesAppend(ToDecimal(n / 10), Digit(n % 10), 0);
    }
  }

  /** Printing and scanning back is the identity up to the bound, and fails above it. */
  lemma {:induction false} DecimalRoundTrip(n: nat, max: nat, rest: string)
    requires max >= 9 && (rest == "" || !IsDigit(rest[0]))
    ensures ScanDigits(ToDecimal(n) + rest, 0, max) == if n <= max then Some((n, rest)) else None
  {
    DecimalDenotes(n);
    ScanExact(ToDecimal(n), 0, max, rest);
  }

  predicate Digits(s: string) { forall c | c in s :: IsDigit(c) }

  /** Digits as std::to_string prints them: no zero in front of others. */
  predicate Numeral(s: string) { s != "" && Digits(s) && (|s| > 1 ==> s[0] != '0') }

  lemma {:induction false} NumeralPrints(s: string)
    requires Numeral(s)
    ensures ToDecimal(Denotes(s, 0)) == s
    decreases |s|
  {
    var n := |s| - 1;
    assert s == s[..n] + [s[n]] && s[n] in s && s[0] in s;
    if n == 0 {
      assert s[1..] == "" && Digit(DigitValue(s[0])) == s[0];
    } else {
      var before := s[..n];
      assert (forall c | c in before :: c in s) && before[0] == s[0];
      NumeralPrints(before);
      DenotesAppend(before, s[n], 0);
      assert ToDecimal(0) == [Digit(0)] == "0" && Digit(DigitValue(s[n])) == s[n];
      assert Denotes(before, 0) != 0;
    }
  }

  /** What is printed is such a numeral, and of zero only the digit 0. */
  lemma {:induction false} PrintsNumeral(n: nat)
    ensures Numeral(ToDecimal(n)) && (ToDecimal(n)[0] == '0' ==> n == 0)
    decreases n
  {
    if n >= 10 {
      PrintsNumeral(n / 10);
      assert ToDecimal(n)[0] == ToDecimal(n / 10)[0];
    }
  }

  // ---------- parse_int ----------

  const INT_MAX: int := 0x7FFF_FFFF

  predicate IsSpace(c: char) {
    c == ' ' || c == '\U{000C}' || c == '\n' || c == '\r' || c == '\t' || c == '\U{000B}'
  }

  function SkipSpaces(s: string): (r: string)
    ensures |r| <= |s|
  {
    if s != "" && IsSpace(s[0]) then SkipSpaces(s[1..]) else s
  }

  /** parse_int of src/utils/parse_int.h, None for its error returns: spaces, an optional sign, digits
      (possibly none) up to the exact int bounds, spaces, and nothing else. */
  function ParseInt(s: string): (r: Option<int>)
    ensures r.Some? ==> -INT_MAX - 1 <= r.value <= INT_MAX
  {
    var t := SkipSpaces(s);
    ParseDigits(Unsigned(t), Negative(t))
  }

  predicate Negative(t: string) { t != "" && t[0] == '-' }

  function Unsigned(t: string): string { if t != "" && (t[0] == '+' || t[0] == '-') then t[1..] else t }

  function ParseDigits(digits: string, negative: bool): (r: Option<int>)
    ensures r.Some? ==> -INT_MAX - 1 <= r.value <= INT_MAX
  {
    if digits == "" then None
    else
      var max := if negative then INT_MAX + 1 else INT_MAX;
      match ScanDigits(digits, 0, max)
      case None => None
      case Some((value, rest)) =>
        ScanBound(digits, 0, max);
        if SkipSpaces(rest) == "" then Some(if negative then -(value as int) else value) else None
  }

  lemma {:induction false} ScanBound(s: string, acc: nat, max: nat)
    requires max >= 9 && acc <= max
    ensures ScanDigits(s, acc, max).Some? ==> ScanDigits(s, acc, max).value.0 <= max
    decreases |s|
  {
    if s != "" && IsDigit(s[0]) && acc <= (max - DigitValue(s[0])) / 10 {
      ScanBound(s[1..], 10 * acc + DigitValue(s[0]), max);
    }
  }

  /** A printed number is read back exactly when it fits an int. */
  lemma {:induction false} ParseDecimal(n: nat)
    ensures ParseInt(ToDecimal(n)) == if n <= INT_MAX then Some(n) else None
  {
    var s := ToDecimal(n);
    assert s[0] in s;
    DecimalRoundTrip(n, INT_MAX, "");
    assert s + "" == s;
  }

  /** A numeral that is read is printed as it was. */
  lemma {:induction false} ParseNumeral(s: string)
    requires Numeral(s) && ParseInt(s).Some?
    ensures ParseInt(s).value >= 0 && ToDecimal(ParseInt(s).value) == s
  {
    NumeralPrints(s);
    ParseDecimal(Denotes(s, 0));
  }

  predicate Spaces(s: string) { forall c | c in s :: IsSpace(c) }

  predicate Sign(s: string) { s == "" || s == "+" || s == "-" }

  /** What parse_int takes: spaces, perhaps a sign, digits, spaces. Behind a sign the digits may be missing, if a space
      is there. */
  predicate IntText(a: string, sign: string, digits: string, b: string) {
    Spaces(a) && Sign(sign) && Digits(digits) && Spaces(b) && sign + digits != "" && digits + b != ""
  }

  function IntValue(sign: string, digits: string): int
    requires Digits(digits)
  {
    if sign == "-" then -(Denotes(digits, 0) as int) else Denotes(digits, 0)
  }

  lemma {:induction false} SpacesSkipped(a: string, s: string)
    requires Spaces(a) && (s == "" || !IsSpace(s[0]))
    ensures SkipSpaces(a + s) == s
    decreases |a|
  {
    if a == "" {
      assert a + s == s;
    } else {
      assert a[0] in a && (forall c | c in a[1..] :: c in a) && (a + s)[1..] == a[1..] + s;
      SpacesSkipped(a[1..], s);
    }
  }

  lemma {:induction false} SkipCuts(s: string)
    ensures var r := SkipSpaces(s);
            Spaces(s[..|s| - |r|]) && s[|s| - |r|..] == r && (r == "" || !IsSpace(r[0]))
    decreases |s|
  {
    if s != "" && IsSpace(s[0]) {
      SkipCuts(s[1..]);
      var k := |s| - |SkipSpaces(s)|;
      assert s[..k] == [s[0]] + s[1..][..k - 1] && s[k..] == s[1..][k - 1..];
    }
  }

  lemma {:induction false} ScanCuts(s: string, acc: nat, max: nat)
    requires max >= 9 && ScanDigits(s, acc, max).Some?
    ensures var rest := ScanDigits(s, acc, max).value.1;
            |rest| <= |s| && Digits(s[..|s| - |rest|]) && s[|s| - |rest|..] == rest
    decreases |s|
  {
    if s != "" && IsDigit(s[0]) {
      ScanCuts(s[1..], 10 * acc + DigitValue(s[0]), max);
      var k := |s| - |ScanDigits(s, acc, max).value.1|;
      assert s[..k] == [s[0]] + s[1..][..k - 1] && s[k..] == s[1..][k - 1..];
    }
  }

  lemma {:induction false} DigitsMean(digits: string, b: string, negative: bool)
    requires Digits(digits) && Spaces(b) && digits + b != ""
    ensures var v := if negative then -(Denotes(digits, 0) as int) else Denotes(digits, 0);
            ParseDigits(digits + b, negative) == if -INT_MAX - 1 <= v <= INT_MAX then Some(v) else None
  {
    assert b != "" ==> b[0] in b;
    ScanExact(digits, 0, if negative then INT_MAX + 1 else INT_MAX, b);
    SpacesSkipped(b, "");
    assert b + "" == b;
  }

  lemma {:induction false} SignMeans(sign: string, digits: string, b: string)
    requires Sign(sign) && Digits(digits) && sign + digits != ""
    ensures var t := sign + digits + b;
            t != "" && !IsSpace(t[0]) && Unsigned(t) == digits + b && (Negative(t) <==> sign == "-")
  {
    var t := sign + digits + b;
    if sign == "" {
      assert t == digits + b && digits[0] in digits;
    } else {
      assert t[0] == sign[0] && t[1..] == digits + b;
    }
  }

  /** The number that a text of this form denotes is what is read, if it fits an int. */
  lemma {:induction false} ParseIntMeans(a: string, sign: string, digits: string, b: string)
    requires IntText(a, sign, digits, b)
    ensures ParseInt(a + sign + digits + b) ==
            var v := IntValue(sign, digits); if -INT_MAX - 1 <= v <= INT_MAX then Some(v) else None
  {
    SignMeans(sign, digits, b);
    SpacesSkipped(a, sign + digits + b);
    assert a + (sign + digits + b) == a + sign + digits + b;
    DigitsMean(digits, b, sign == "-");
  }

  lemma {:induction false} DigitsOnly(u: string, negative: bool) returns (digits: string, b: string)
    requires ParseDigits(u, negative).Some?
    ensures u == digits + b && Digits(digits) && Spaces(b) && u != ""
  {
    var max := if negative then INT_MAX + 1 else INT_MAX;
    ScanCuts(u, 0, max);
    b := ScanDigits(u, 0, max).value.1;
    digits := u[..|u| - |b|];
    SkipCuts(b);
    assert b[..|b|] == b;
  }

  lemma {:induction false} FirstSpace(b: string)
    requires Spaces(b) && b != ""
    ensures IsSpace(b[0])
  {
    assert b[0] in b;
  }

  lemma {:induction false} FrontSpaces(s: string) returns (a: string, t: string)
    ensures s == a + t && Spaces(a) && t == SkipSpaces(s) && (t == "" || !IsSpace(t[0]))
  {
    t := SkipSpaces(s);
    SkipCuts(s);
    a := s[..|s| - |t|];
  }

  lemma {:induction false} UnsignedCut(t: string) returns (sign: string)
    ensures Sign(sign) && t == sign + Unsigned(t) && (sign == "" ==> Unsigned(t) == t)
  {
    sign := if t != "" && (t[0] == '+' || t[0] == '-') then [t[0]] else "";
  }

  /** Nothing else is read. */
  lemma {:induction false} ParseIntOnly(s: string) returns (a: string, sign: string, digits: string, b: string)
    requires ParseInt(s).Some?
    ensures s == a + sign + digits + b && IntText(a, sign, digits, b)
  {
    var t;
    a, t := FrontSpaces(s);
    sign := UnsignedCut(t);
    digits, b := DigitsOnly(Unsigned(t), Negative(t));
    if b != "" { FirstSpace(b); }
    Rejoined(s, a, t, sign, digits, b);
  }

  lemma {:induction false} Rejoined(s: string, a: string, t: string, sign: string, digits: string, b: string)
    requires s == a + t && t == sign + (digits + b)
    ensures s == a + sign + digits + b && (sign == digits == "" ==> t == b)
  {
  }

  /** The parsing loops, with the accumulator kept negative after a minus sign as in the source. */
  method ParseIntLoop(s: string) returns (r: Option<int>)
    ensures r == ParseInt(s)
  {
    var str := SkipSpacesLoop(s);
    var positive := true;
    if str != "" && (str[0] == '+' || str[0] == '-') {
      positive := str[0] == '+';
      str := str[1..];
    }
    if str == "" { return None; }
    var value: int := 0;
    ghost var digits, max := str, if positive then INT_MAX else INT_MAX + 1;
    while str != "" && IsDigit(str[0])
      invariant if positive then 0 <= value <= INT_MAX else -INT_MAX - 1 <= value <= 0
      invariant ScanDigits(str, if positive then value else -value, max) == ScanDigits(digits, 0, max)
      decreases |str|
    {
      var d := DigitValue(str[0]);
      GuardExact(if positive then value else -value, d, max);
      if positive {
        if value > (INT_MAX - d) / 10 { return None; }
        value := 10 * value + d;
      } else {
        // truncating division of the negative bound
        if value < -((INT_MAX + 1 - d) / 10) { return None; }
        value := 10 * value - d;
      }
      str := str[1..];
    }
    str := SkipSpacesLoop(str);
    if str != "" { return None; }
    return Some(value);
  }

  method SkipSpacesLoop(s: string) returns (r: string)
    ensures r == SkipSpaces(s)
  {
    r := s;
    while r != "" && IsSpace(r[0])
      invariant SkipSpaces(r) == SkipSpaces(s)
      decreases |r|
    {
      r := r[1..];
    }
  }
}
