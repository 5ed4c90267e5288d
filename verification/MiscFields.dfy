/** The registers that src/sentence/token.cpp keeps in one MISC string, separated by '|': the spaces before, in and
    after a token, and its offsets. */
module MiscFields {
  import opened Sentences
  import opened Strings

  const SPACE_AFTER := "SpaceAfter"
  const SPACES_BEFORE := "SpacesBefore"
  const SPACES_AFTER := "SpacesAfter"
  const SPACES_IN_TOKEN := "SpacesInToken"
  const TOKEN_RANGE := "TokenRange"

  const SIZE_MAX: nat := 0xFFFF_FFFF_FFFF_FFFF

  // ---------- fields ----------

  predicate HasName(field: string, name: string) {
    |field| > |name| && field[..|name|] == name && field[|name|] == '='
  }

  predicate Simple(name: string) { '|' !in name && '=' !in name }

  /** The value of the first field with this name. */
  function Lookup(fields: seq<string>, name: string): Option<string> {
    if fields == [] then None
    else if HasName(fields[0], name) then Some(fields[0][|name| + 1..])
    else Lookup(fields[1..], name)
  }

  function Value(misc: string, name: string): Option<string> {
    Lookup(Split(misc, '|'), name)
  }

  /** The fields without the ones of this name, in order. */
  function Without(fields: seq<string>, name: string): (r: seq<string>)
    ensures Free(fields, '|') ==> Free(r, '|')
  {
    if fields == [] then []
    else if HasName(fields[0], name) then Without(fields[1..], name)
    else [fields[0]] + Without(fields[1..], name)
  }

  function Removed(misc: string, name: string): string {
    Join(Without(Split(misc, '|'), name), '|')
  }

  function Started(misc: string, name: string): string {
    var r := Removed(misc, name);
    (if r == "" then "" else r + "|") + name + "="
  }

  function Set(misc: string, name: string, value: string): string {
    Started(misc, name) + value
  }

  /** The non-empty fields of a list. */
  function NonEmpty(fields: seq<string>): seq<string> {
    if fields == [] then []
    else if fields[0] == "" then NonEmpty(fields[1..])
    else [fields[0]] + NonEmpty(fields[1..])
  }

  /** The non-empty fields of a MISC string: what its meaning depends on. */
  function Fields(misc: string): seq<string> { NonEmpty(Split(misc, '|')) }

  lemma {:induction false} LookupNonEmpty(fields: seq<string>, name: string)
    ensures Lookup(NonEmpty(fields), name) == Lookup(fields, name)
    decreases |fields|
  {
    if fields != [] { LookupNonEmpty(fields[1..], name); }
  }

  lemma {:induction false} WithoutNonEmpty(fields: seq<string>, name: string)
    ensures NonEmpty(Without(fields, name)) == Without(NonEmpty(fields), name)
    decreases |fields|
  {
    if fields != [] { WithoutNonEmpty(fields[1..], name); }
  }

  lemma {:induction false} LookupWithout(fields: seq<string>, name: string, other: string)
    requires Simple(name) && Simple(other)
    ensures Lookup(Without(fields, name), other) == if name == other then None else Lookup(fields, other)
    decreases |fields|
  {
    if fields != [] {
      LookupWithout(fields[1..], name, other);
      if HasName(fields[0], name) && HasName(fields[0], other) { OneName(fields[0], name, other); }
    }
  }

  /** A field has at most one simple name. */
  lemma {:induction false} OneName(field: string, name: string, other: string)
    requires Simple(name) && Simple(other) && HasName(field, name) && HasName(field, other)
    ensures name == other
  {
    assert name == field[..|name|] && other == field[..|other|];
  }

  lemma {:induction false} LookupAppend(fields: seq<string>, x: string, name: string)
    ensures Lookup(fields + [x], name) ==
            if Lookup(fields, name).Some? then Lookup(fields, name)
            else if HasName(x, name) then Some(x[|name| + 1..]) else None
    decreases |fields|
  {
    if fields == [] {
      assert fields + [x] == [x];
    } else {
      assert (fields + [x])[1..] == fields[1..] + [x];
      LookupAppend(fields[1..], x, name);
    }
  }

  lemma {:induction false} NonEmptyAppend(fields: seq<string>, x: string)
    ensures NonEmpty(fields + [x]) == NonEmpty(fields) + if x == "" then [] else [x]
    decreases |fields|
  {
    if fields == [] {
      assert fields + [x] == [x];
    } else {
      assert (fields + [x])[1..] == fields[1..] + [x];
      NonEmptyAppend(fields[1..], x);
    }
  }

  lemma {:induction false} AllEmptyJoin(fields: seq<string>)
    requires Join(fields, '|') == ""
    ensures NonEmpty(fields) == []
  {
  }

  lemma {:induction false} FieldsValue(misc: string, name: string)
    ensures Value(misc, name) == Lookup(Fields(misc), name)
  {
    LookupNonEmpty(Split(misc, '|'), name);
  }

  /** Removing takes away exactly the fields of that name. */
  lemma {:induction false} FieldsRemoved(misc: string, name: string)
    ensures Fields(Removed(misc, name)) == Without(Fields(misc), name)
  {
    var fields := Split(misc, '|');
    WithoutNonEmpty(fields, name);
    SplitFree(misc, '|');
    var kept := Without(fields, name);
    if kept == [] {
      IndexAtSeparator("", '|', "");
    } else {
      SplitJoin(kept, '|');
    }
  }

  /** Setting replaces all fields of that name by one at the end; every other field keeps value and order. */
  lemma {:induction false} FieldsSet(misc: string, name: string, value: string)
    requires Simple(name) && '|' !in value
    ensures Fields(Set(misc, name, value)) == Without(Fields(misc), name) + [name + "=" + value]
  {
    SplitFree(misc, '|');
    var kept := Without(Split(misc, '|'), name);
    WithoutNonEmpty(Split(misc, '|'), name);
    var x := name + "=" + value;
    StartedJoin(kept, x);
    SetForm(Join(kept, '|'), name, value);
  }

  lemma {:induction false} SetForm(r: string, name: string, value: string)
    ensures (if r == "" then "" else r + "|") + name + "=" + value ==
            (if r == "" then "" else r + "|") + (name + "=" + value)
  {
  }

  /** Appending a field to joined fields, with a separator unless nothing is there. */
  lemma {:induction false} StartedJoin(kept: seq<string>, x: string)
    requires Free(kept, '|') && '|' !in x && x != ""
    ensures var r := Join(kept, '|'); Fields((if r == "" then "" else r + "|") + x) == NonEmpty(kept) + [x]
  {
    if Join(kept, '|') == "" {
      AllEmptyJoin(kept);
      SplitJoin([x], '|');
      NonEmptyAppend([], x);
      assert [] + [x] == [x] && "" + x == x;
    } else {
      JoinAppend(kept, x, '|');
      SplitJoin(kept + [x], '|');
      NonEmptyAppend(kept, x);
    }
  }

  lemma {:induction false} ValueRemoved(misc: string, name: string, other: string)
    requires Simple(name) && Simple(other)
    ensures Value(Removed(misc, name), other) == if name == other then None else Value(misc, other)
  {
    FieldsRemoved(misc, name);
    FieldsValue(misc, other);
    FieldsValue(Removed(misc, name), other);
    LookupWithout(Fields(misc), name, other);
  }

  lemma {:induction false} ValueSet(misc: string, name: string, value: string, other: string)
    requires Simple(name) && Simple(other) && '|' !in value
    ensures Value(Set(misc, name, value), other) == if name == other then Some(value) else Value(misc, other)
  {
    FieldsSet(misc, name, value);
    FieldsValue(misc, other);
    FieldsValue(Set(misc, name, value), other);
    LookupWithout(Fields(misc), name, other);
    var x := name + "=" + value;
    LookupAppend(Without(Fields(misc), name), x, other);
    assert HasName(x, name);
    if HasName(x, other) { OneName(x, name, other); }
    assert x[|name| + 1..] == value;
  }

  // ---------- escaping ----------

  function EscapeChar(c: char): (r: string)
    ensures '|' !in r && 1 <= |r| <= 2
  {
    match c
    case ' ' => "\\s"
    case '|' => "\\p"
    case '\t' => "\\t"
    case '\r' => "\\r"
    case '\n' => "\\n"
    case '\\' => "\\\\"
    case _ => [c]
  }

  function Escape(s: string): (r: string)
    ensures '|' !in r
    ensures |r| >= |s|
  {
    if s == "" then "" else EscapeChar(s[0]) + Escape(s[1..])
  }

  /** What a backslash followed by c stands for; an unknown pair stands for itself. */
  function UnescapePair(c: char): string {
    match c
    case 's' => " "
    case 'p' => "|"
    case 't' => "\t"
    case 'r' => "\r"
    case 'n' => "\n"
    case '\\' => "\\"
    case _ => ['\\', c]
  }

  function Unescape(s: string): string {
    if s == "" then ""
    else if s[0] != '\\' || |s| == 1 then [s[0]] + Unescape(s[1..])
    else UnescapePair(s[1]) + Unescape(s[2..])
  }

  lemma {:induction false} UnescapeChar(c: char, rest: string)
    ensures Unescape(EscapeChar(c) + rest) == [c] + Unescape(rest)
  {
    var e := EscapeChar(c) + rest;
    assert |EscapeChar(c)| == 1 ==> e[1..] == rest;
    assert |EscapeChar(c)| == 2 ==> e[2..] == rest;
  }

  lemma {:induction false} UnescapeEscape(s: string)
    ensures Unescape(Escape(s)) == s
    decreases |s|
  {
    if s != "" {
      UnescapeEscape(s[1..]);
      UnescapeChar(s[0], Escape(s[1..]));
      assert s == [s[0]] + s[1..];
    }
  }

  /** The escaped string has none of the characters that separate fields, columns or lines. */
  lemma {:induction false} EscapedIsSafe(s: string)
    ensures ' ' !in Escape(s) && '|' !in Escape(s) && '\t' !in Escape(s) && '\r' !in Escape(s) && '\n' !in Escape(s)
    decreases |s|
  {
    if s != "" { EscapedIsSafe(s[1..]); }
  }

  lemma {:induction false} EscapeAppend(s: string, t: string)
    ensures Escape(s + t) == Escape(s) + Escape(t)
    decreases |s|
  {
    if s == "" {
      assert s + t == t;
    } else {
      assert (s + t)[1..] == s[1..] + t;
      EscapeAppend(s[1..], t);
    }
  }

  /** The six escapes of the format; every other character stands for itself. */
  lemma {:induction false} EscapeOne(c: char)
    ensures Escape([c]) ==
            if c == ' ' then "\\s" else if c == '|' then "\\p" else if c == '\t' then "\\t" else if c == '\r' then "\\r"
            else if c == '\n' then "\\n" else if c == '\\' then "\\\\" else [c]
  {
    assert [c][1..] == "" && EscapeChar(c) + "" == EscapeChar(c);
  }

  /** The last backslash is not the first of a pair. */
  predicate Dangling(s: string) {
    s != "" && if s[0] != '\\' then Dangling(s[1..]) else |s| == 1 || Dangling(s[2..])
  }

  lemma {:induction false} UnescapeAppend(s: string, t: string)
    requires !Dangling(s)
    ensures Unescape(s + t) == Unescape(s) + Unescape(t)
    decreases |s|
  {
    if s == "" {
      assert s + t == t;
    } else {
      var n := if s[0] == '\\' then 2 else 1;
      assert (s + t)[n..] == s[n..] + t && (s + t)[0] == s[0] && (n == 2 ==> (s + t)[1] == s[1]);
      UnescapeAppend(s[n..], t);
    }
  }

  /** The pairs that are read: the six escapes, and every other pair as it stands, like a single character and a
      backslash at the end. */
  lemma {:induction false} UnescapeOne(c: char)
    ensures Unescape(['\\', c]) ==
            if c == 's' then " " else if c == 'p' then "|" else if c == 't' then "\t" else if c == 'r' then "\r"
            else if c == 'n' then "\n" else if c == '\\' then "\\" else ['\\', c]
    ensures Unescape([c]) == [c] && Unescape("") == "" && (Dangling([c]) <==> c == '\\') && !Dangling(['\\', c])
  {
    assert ['\\', c][2..] == "" && [c][1..] == "";
  }

  // ---------- getters and setters on the string ----------

  function SpaceAfter(misc: string): bool { Value(misc, SPACE_AFTER) != Some("No") }

  function SpacesOf(misc: string, name: string): string {
    match Value(misc, name)
    case Some(v) => Unescape(v)
    case None => ""
  }

  function SpacesAfter(misc: string): string {
    match Value(misc, SPACES_AFTER)
    case Some(v) => Unescape(v)
    case None => if SpaceAfter(misc) then " " else ""
  }

  function ParseRange(value: string): Option<(nat, nat)> {
    match ScanDigits(value, 0, SIZE_MAX)
    case None => None
    case Some((start, rest)) =>
      if rest == "" || rest[0] != ':' then None
      else match ScanDigits(rest[1..], 0, SIZE_MAX)
        case None => None
        case Some((end, _)) => Some((start, end))
  }

  function TokenRange(misc: string): Option<(nat, nat)> {
    match Value(misc, TOKEN_RANGE)
    case Some(v) => ParseRange(v)
    case None => None
  }

  function PrintRange(start: nat, end: nat): (r: string)
    ensures '|' !in r
  {
    ToDecimal(start) + ":" + ToDecimal(end)
  }

  lemma {:induction false} RangeRoundTrip(start: nat, end: nat)
    requires start <= SIZE_MAX && end <= SIZE_MAX
    ensures ParseRange(PrintRange(start, end)) == Some((start, end))
  {
    var rest := ":" + ToDecimal(end);
    DecimalRoundTrip(start, SIZE_MAX, rest);
    assert PrintRange(start, end) == ToDecimal(start) + rest && rest[1..] == ToDecimal(end);
    DecimalRoundTrip(end, SIZE_MAX, "");
    assert ToDecimal(end) + "" == ToDecimal(end);
  }

  /** The texts that are read as a range: digits, a colon, digits, and then whatever does not start with a digit. */
  lemma {:induction false} RangeMeans(a: string, b: string, tail: string)
    requires Digits(a) && Digits(b) && (tail == "" || !IsDigit(tail[0]))
    ensures ParseRange(a + ":" + b + tail) ==
            if Denotes(a, 0) <= SIZE_MAX && Denotes(b, 0) <= SIZE_MAX then Some((Denotes(a, 0), Denotes(b, 0)))
            else None
  {
    var rest := ":" + b + tail;
    assert a + ":" + b + tail == a + rest && rest[1..] == b + tail;
    ScanExact(a, 0, SIZE_MAX, rest);
    ScanExact(b, 0, SIZE_MAX, tail);
  }

  /** No other text is a range. */
  lemma {:induction false} RangeOnly(value: string) returns (a: string, b: string, tail: string)
    requires ParseRange(value).Some?
    ensures value == a + ":" + b + tail && Digits(a) && Digits(b) && (tail == "" || !IsDigit(tail[0]))
  {
    var rest;
    a, rest := LeadingDigits(value);
    ScanExact(a, 0, SIZE_MAX, rest);
    b, tail := LeadingDigits(rest[1..]);
  }

  lemma {:induction false} LeadingDigits(s: string) returns (digits: string, rest: string)
    ensures s == digits + rest && Digits(digits) && (rest == "" || !IsDigit(rest[0]))
    decreases |s|
  {
    if s == "" || !IsDigit(s[0]) {
      digits, rest := "", s;
    } else {
      var more;
      more, rest := LeadingDigits(s[1..]);
      digits := [s[0]] + more;
      assert s == [s[0]] + s[1..];
    }
  }

  function WithSpaceAfter(misc: string, spaceAfter: bool): string {
    if spaceAfter then Removed(misc, SPACE_AFTER) else Set(misc, SPACE_AFTER, "No")
  }

  function WithSpaces(misc: string, name: string, spaces: string): string {
    if spaces == "" then Removed(misc, name) else Set(misc, name, Escape(spaces))
  }

  function WithSpacesAfter(misc: string, spaces: string): string {
    if spaces == "" then Removed(WithSpaceAfter(misc, false), SPACES_AFTER)
    else if spaces == " " then Removed(WithSpaceAfter(misc, true), SPACES_AFTER)
    else Set(WithSpaceAfter(misc, true), SPACES_AFTER, Escape(spaces))
  }

  function WithTokenRange(misc: string, start: nat, end: nat): string {
    if start == SIZE_MAX then Removed(misc, TOKEN_RANGE) else Set(misc, TOKEN_RANGE, PrintRange(start, end))
  }

  // ---------- the registers over any run ----------

  datatype Op =
    | SetSpacesBefore(spaces: string)
    | SetSpacesAfter(spaces: string)
    | SetSpacesInToken(spaces: string)
    | SetTokenRange(start: nat, end: nat)
    | SetSpaceAfter(spaceAfter: bool)

  function Apply(misc: string, op: Op): string {
    match op
    case SetSpacesBefore(s) => WithSpaces(misc, SPACES_BEFORE, s)
    case SetSpacesAfter(s) => WithSpacesAfter(misc, s)
    case SetSpacesInToken(s) => WithSpaces(misc, SPACES_IN_TOKEN, s)
    case SetTokenRange(start, end) => WithTokenRange(misc, start, end)
    case SetSpaceAfter(b) => WithSpaceAfter(misc, b)
  }

  predicate InRange(op: Op) {
    op.SetTokenRange? ==> op.start <= SIZE_MAX && op.end <= SIZE_MAX
  }

  /** The registers as the getters show them. `explicitAfter` is the SpacesAfter field on its own: while it is
      present it hides the SpaceAfter flag from the getter of the spaces after. */
  datatype Registers = Registers(
    before: string, inToken: string, range: Option<(nat, nat)>, spaceAfter: bool, explicitAfter: Option<string>)
  {
    function After(): string {
      match explicitAfter
      case Some(s) => s
      case None => if spaceAfter then " " else ""
    }
  }

  function Read(misc: string): Registers {
    Registers(SpacesOf(misc, SPACES_BEFORE), SpacesOf(misc, SPACES_IN_TOKEN), TokenRange(misc), SpaceAfter(misc),
              match Value(misc, SPACES_AFTER) case Some(v) => Some(Unescape(v)) case None => None)
  }

  /** What each operation means: it overwrites its own register and touches no other. */
  function Update(r: Registers, op: Op): Registers {
    match op
    case SetSpacesBefore(s) => r.(before := s)
    case SetSpacesAfter(s) => r.(spaceAfter := s != "", explicitAfter := if s == "" || s == " " then None else Some(s))
    case SetSpacesInToken(s) => r.(inToken := s)
    case SetTokenRange(start, end) => r.(range := if start == SIZE_MAX then None else Some((start, end)))
    case SetSpaceAfter(b) => r.(spaceAfter := b)
  }

  predicate Register(name: string) {
    || name == SPACE_AFTER || name == SPACES_BEFORE || name == SPACES_AFTER || name == SPACES_IN_TOKEN
    || name == TOKEN_RANGE
  }

  predicate Owned(field: string) {
    HasName(field, SPACE_AFTER) || HasName(field, SPACES_BEFORE) || HasName(field, SPACES_AFTER)
    || HasName(field, SPACES_IN_TOKEN) || HasName(field, TOKEN_RANGE)
  }

  /** The fields that belong to no register. */
  function Others(fields: seq<string>): seq<string> {
    if fields == [] then []
    else if Owned(fields[0]) then Others(fields[1..])
    else [fields[0]] + Others(fields[1..])
  }

  lemma {:induction false} OthersWithout(fields: seq<string>, name: string)
    requires Register(name)
    ensures Others(Without(fields, name)) == Others(fields)
    decreases |fields|
  {
    if fields != [] { OthersWithout(fields[1..], name); }
  }

  lemma {:induction false} OthersAppend(fields: seq<string>, x: string)
    requires Owned(x)
    ensures Others(fields + [x]) == Others(fields)
    decreases |fields|
  {
    if fields == [] {
      assert fields + [x] == [x];
    } else {
      assert (fields + [x])[1..] == fields[1..] + [x];
      OthersAppend(fields[1..], x);
    }
  }

  lemma {:induction false} ValuesRemoved(misc: string, name: string)
    requires Register(name)
    ensures forall other | Register(other) ::
              Value(Removed(misc, name), other) == if name == other then None else Value(misc, other)
  {
    forall other | Register(other)
      ensures Value(Removed(misc, name), other) == if name == other then None else Value(misc, other)
    {
      ValueRemoved(misc, name, other);
    }
  }

  lemma {:induction false} RemoveEffect(misc: string, name: string)
    requires Register(name)
    ensures forall other | Register(other) ::
              Value(Removed(misc, name), other) == if name == other then None else Value(misc, other)
    ensures Others(Fields(Removed(misc, name))) == Others(Fields(misc))
  {
    ValuesRemoved(misc, name);
    FieldsRemoved(misc, name);
    OthersWithout(Fields(misc), name);
  }

  lemma {:induction false} ValuesSet(misc: string, name: string, value: string)
    requires Register(name) && '|' !in value
    ensures forall other | Register(other) ::
              Value(Set(misc, name, value), other) == if name == other then Some(value) else Value(misc, other)
  {
    forall other | Register(other)
      ensures Value(Set(misc, name, value), other) == if name == other then Some(value) else Value(misc, other)
    {
      ValueSet(misc, name, value, other);
    }
  }

  lemma {:induction false} SetEffect(misc: string, name: string, value: string)
    requires Register(name) && '|' !in value
    ensures forall other | Register(other) ::
              Value(Set(misc, name, value), other) == if name == other then Some(value) else Value(misc, other)
    ensures Others(Fields(Set(misc, name, value))) == Others(Fields(misc))
  {
    ValuesSet(misc, name, value);
    FieldsSet(misc, name, value);
    OthersWithout(Fields(misc), name);
    var x := name + "=" + value;
    assert HasName(x, name);
    OthersAppend(Without(Fields(misc), name), x);
  }

  /** One operation acts on the registers as it means to and keeps every other field, in order. */
  lemma {:induction false} ApplyUpdates(misc: string, op: Op)
    requires InRange(op)
    ensures Read(Apply(misc, op)) == Update(Read(misc), op)
    ensures Others(Fields(Apply(misc, op))) == Others(Fields(misc))
  {
    match op {
      case SetSpacesBefore(s) => SpacesEffect(misc, SPACES_BEFORE, s);
      case SetSpacesInToken(s) => SpacesEffect(misc, SPACES_IN_TOKEN, s);
      case SetSpaceAfter(b) => SpaceAfterEffect(misc, b);
      case SetTokenRange(start, end) => TokenRangeEffect(misc, start, end);
      case SetSpacesAfter(s) => SpacesAfterEffect(misc, s);
    }
  }

  lemma {:induction false} TokenRangeEffect(misc: string, start: nat, end: nat)
    requires start <= SIZE_MAX && end <= SIZE_MAX
    ensures TokenRange(WithTokenRange(misc, start, end)) == if start == SIZE_MAX then None else Some((start, end))
    ensures forall other | Register(other) && other != TOKEN_RANGE ::
              Value(WithTokenRange(misc, start, end), other) == Value(misc, other)
    ensures Others(Fields(WithTokenRange(misc, start, end))) == Others(Fields(misc))
  {
    if start == SIZE_MAX {
      RemoveEffect(misc, TOKEN_RANGE);
    } else {
      SetEffect(misc, TOKEN_RANGE, PrintRange(start, end));
      RangeRoundTrip(start, end);
    }
  }

  lemma {:induction false} SpacesAfterEffect(misc: string, s: string)
    ensures var r := WithSpacesAfter(misc, s);
            && SpaceAfter(r) == (s != "")
            && (match Value(r, SPACES_AFTER)
                case Some(v) => s != "" && s != " " && Unescape(v) == s
                case None => s == "" || s == " ")
            && Others(Fields(r)) == Others(Fields(misc))
    ensures forall other | Register(other) && other != SPACES_AFTER && other != SPACE_AFTER ::
              Value(WithSpacesAfter(misc, s), other) == Value(misc, other)
  {
    SpaceAfterEffect(misc, s != "");
    var m := WithSpaceAfter(misc, s != "");
    if s == "" || s == " " {
      RemoveEffect(m, SPACES_AFTER);
    } else {
      SetEffect(m, SPACES_AFTER, Escape(s));
      UnescapeEscape(s);
    }
  }

  lemma {:induction false} SpacesEffect(misc: string, name: string, s: string)
    requires Register(name)
    ensures SpacesOf(WithSpaces(misc, name, s), name) == s
    ensures forall other | Register(other) && other != name ::
              Value(WithSpaces(misc, name, s), other) == Value(misc, other)
    ensures Others(Fields(WithSpaces(misc, name, s))) == Others(Fields(misc))
  {
    if s == "" {
      RemoveEffect(misc, name);
    } else {
      SetEffect(misc, name, Escape(s));
      UnescapeEscape(s);
    }
  }

  lemma {:induction false} SpaceAfterEffect(misc: string, b: bool)
    ensures SpaceAfter(WithSpaceAfter(misc, b)) == b
    ensures forall other | Register(other) && other != SPACE_AFTER ::
              Value(WithSpaceAfter(misc, b), other) == Value(misc, other)
    ensures Others(Fields(WithSpaceAfter(misc, b))) == Others(Fields(misc))
  {
    if b { RemoveEffect(misc, SPACE_AFTER); } else { SetEffect(misc, SPACE_AFTER, "No"); }
  }

  function Run(misc: string, ops: seq<Op>): string {
    if ops == [] then misc else Apply(Run(misc, ops[..|ops| - 1]), ops[|ops| - 1])
  }

  function RunRegisters(r: Registers, ops: seq<Op>): Registers {
    if ops == [] then r else Update(RunRegisters(r, ops[..|ops| - 1]), ops[|ops| - 1])
  }

  /** Over any sequence of setters on any starting string, the getters behave as independent registers and
      every field that belongs to none of them keeps its value and order. */
  lemma {:induction false} RunsAreRegisters(misc: string, ops: seq<Op>)
    requires forall k | 0 <= k < |ops| :: InRange(ops[k])
    ensures Read(Run(misc, ops)) == RunRegisters(Read(misc), ops)
    ensures Others(Fields(Run(misc, ops))) == Others(Fields(misc))
    decreases |ops|
  {
    if ops != [] {
      var n := |ops| - 1;
      RunsAreRegisters(misc, ops[..n]);
      ApplyUpdates(Run(misc, ops[..n]), ops[n]);
    }
  }

  /** On any string the getter of the spaces after returns what was set last, although two fields stand for it. */
  lemma {:induction false} AfterIsLastSet(misc: string, s: string)
    ensures SpacesAfter(Apply(misc, SetSpacesAfter(s))) == s
  {
    ApplyUpdates(misc, SetSpacesAfter(s));
    assert SpacesAfter(Apply(misc, SetSpacesAfter(s))) == Read(Apply(misc, SetSpacesAfter(s))).After();
  }
}
