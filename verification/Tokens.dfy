/** The token class of src/sentence/token.cpp: a form and a MISC string edited in place. Every method is proved against
    the string functions of MiscFields, whose register laws are RunsAreRegisters. The search, removal and escaping loops
    run over indices into the string; their invariants split the string into the fields already settled and the rest,
    for which the lemmas here say what passing or dropping the first field does. */
module Tokens {
  import opened Sentences
  import opened Sequences
  import opened Strings
  import opened MiscFields

  /** A name that starts a string starts its first field. */
  lemma {:induction false} FirstFieldName(s: string, name: string)
    requires '|' !in name
    ensures HasName(s, name) <==> HasName(s[..IndexOf(s, '|')], name)
    ensures HasName(s, name) ==> IndexOf(s, '|') == |name| + 1 + IndexOf(s[|name| + 1..], '|')
  {
    var k := IndexOf(s, '|');
    if HasName(s, name) { NoSeparatorBefore(s, |name| + 1); }
  }

  lemma {:induction false} NoSeparatorBefore(s: string, n: nat)
    requires n <= |s| && '|' !in s[..n]
    ensures IndexOf(s, '|') == n + IndexOf(s[n..], '|')
    decreases n
  {
    if n == 0 {
      assert s[0..] == s;
    } else {
      assert s[..n][0] == s[0] && s[..n][1..] == s[1..][..n - 1] && s[1..][n - 1..] == s[n..];
      NoSeparatorBefore(s[1..], n - 1);
    }
  }

  /** `pre`, empty or ending in '|', followed by the fields; a trailing '|' goes when there is no field. */
  function Assemble(pre: string, fields: seq<string>): string {
    if fields == [] then (if pre == "" then "" else pre[..|pre| - 1]) else pre + Join(fields, '|')
  }

  lemma {:induction false} SplitFront(r: string)
    ensures var k := IndexOf(r, '|');
            Split(r, '|') == if k == |r| then [r] else [r[..k]] + Split(r[k + 1..], '|')
  {
  }

  lemma {:induction false} AssembleKeep(pre: string, f: string, rest: seq<string>)
    ensures Assemble(pre, [f] + rest) == Assemble(pre + f + "|", rest)
  {
    assert ([f] + rest)[1..] == rest;
    if rest == [] {
      assert (pre + f + "|")[..|pre + f|] == pre + f;
    } else {
      assert pre + (f + "|" + Join(rest, '|')) == pre + f + "|" + Join(rest, '|');
    }
  }

  lemma {:induction false} WithoutFront(f: string, rest: seq<string>, name: string)
    ensures Without([f] + rest, name) == (if HasName(f, name) then [] else [f]) + Without(rest, name)
  {
    assert ([f] + rest)[1..] == rest;
  }

  lemma {:induction false} KeepField(r: string, name: string)
    requires '|' !in name && !HasName(r, name)
    ensures var k := IndexOf(r, '|');
            Without(Split(r, '|'), name) == if k == |r| then [r] else [r[..k]] + Without(Split(r[k + 1..], '|'), name)
  {
    FirstFieldName(r, name);
    SplitFront(r);
    var k := IndexOf(r, '|');
    if k == |r| {
      assert r[..k] == r;
    } else {
      assert Split(r, '|')[1..] == Split(r[k + 1..], '|');
    }
  }

  lemma {:induction false} DropField(r: string, name: string)
    requires '|' !in name && HasName(r, name)
    ensures var k := IndexOf(r, '|');
            Without(Split(r, '|'), name) == if k == |r| then [] else Without(Split(r[k + 1..], '|'), name)
  {
    FirstFieldName(r, name);
    SplitFront(r);
    var k := IndexOf(r, '|');
    if k == |r| {
      assert r[..k] == r;
      WithoutFront(r, [], name);
    } else {
      WithoutFront(r[..k], Split(r[k + 1..], '|'), name);
    }
  }

  /** The string whose fields in `pre` are settled and whose fields in `r` are still to filter. */
  function Pending(pre: string, r: string, name: string): string {
    Assemble(pre, Without(Split(r, '|'), name))
  }

  lemma {:induction false} AssembleOne(pre: string, f: string)
    ensures Assemble(pre, [f]) == pre + f
  {
  }

  lemma {:induction false} PendingKeep(pre: string, r: string, name: string)
    requires '|' !in name && !HasName(r, name)
    ensures var k := IndexOf(r, '|');
            Pending(pre, r, name) == if k == |r| then pre + r else Pending(pre + r[..k] + "|", r[k + 1..], name)
  {
    KeepField(r, name);
    var k := IndexOf(r, '|');
    if k == |r| {
      AssembleOne(pre, r);
    } else {
      AssembleKeep(pre, r[..k], Without(Split(r[k + 1..], '|'), name));
    }
  }

  lemma {:induction false} PendingDrop(pre: string, r: string, name: string)
    requires '|' !in name && HasName(r, name)
    ensures var k := IndexOf(r, '|');
            Pending(pre, r, name) ==
            if k < |r| then Pending(pre, r[k + 1..], name) else if pre == "" then "" else pre[..|pre| - 1]
  {
    DropField(r, name);
  }

  lemma {:induction false} PendingEmpty(pre: string, name: string)
    ensures Pending(pre, "", name) == pre
  {
    IndexAtSeparator("", '|', "");
    assert Split("", '|') == [""];
    assert Without([""], name) == [""] && pre + "" == pre;
  }

  /** The string is settled up to `pre`, and filtering the rest gives the result. */
  ghost predicate Settled(misc: string, pre: string, r: string, name: string, result: string) {
    misc == pre + r && (pre == "" || pre[|pre| - 1] == '|') && Pending(pre, r, name) == result
  }

  /** The removal loop at an index: settled up to it, or past the end with all done. */
  ghost predicate Erasing(misc: string, index: nat, pre: string, r: string, name: string, result: string) {
    if index <= |misc| then index == |pre| && Settled(misc, pre, r, name, result) else misc == result
  }

  lemma {:induction false} ErasingPass(misc: string, index: nat, pre: string, r: string, name: string, result: string)
    requires '|' !in name && !HasName(r, name) && index < |misc| && Erasing(misc, index, pre, r, name, result)
    ensures var k := IndexOf(r, '|');
            if k < |r| then Erasing(misc, index + k + 1, pre + r[..k] + "|", r[k + 1..], name, result)
            else index + k + 1 > |misc| && misc == result
  {
    PassMiss(misc, pre, r, name, result);
  }

  /** Passing a field of another name. */
  lemma {:induction false} PassMiss(misc: string, pre: string, r: string, name: string, result: string)
    requires '|' !in name && !HasName(r, name) && Settled(misc, pre, r, name, result)
    ensures var k := IndexOf(r, '|');
            if k == |r| then misc == result else Settled(misc, pre + r[..k] + "|", r[k + 1..], name, result)
  {
    PendingKeep(pre, r, name);
    var k := IndexOf(r, '|');
    if k < |r| { PassField(pre, r, k); }
  }

  lemma {:induction false} LookupFront(f: string, rest: seq<string>, name: string)
    ensures Lookup([f] + rest, name) == if HasName(f, name) then Some(f[|name| + 1..]) else Lookup(rest, name)
  {
    assert ([f] + rest)[1..] == rest;
  }

  /** The value of a name, one field further. */
  lemma {:induction false} ValueFront(r: string, name: string)
    requires '|' !in name
    ensures var k := IndexOf(r, '|');
            && (HasName(r, name) ==> |name| + 1 <= k && Value(r, name) == Some(r[|name| + 1..k]))
            && (!HasName(r, name) ==> Value(r, name) == if k == |r| then None else Value(r[k + 1..], name))
  {
    FirstFieldName(r, name);
    SplitFront(r);
    var k := IndexOf(r, '|');
    var rest := if k == |r| then [] else Split(r[k + 1..], '|');
    assert Split(r, '|') == [r[..k]] + rest by { assert k == |r| ==> r[..k] == r; }
    LookupFront(r[..k], rest, name);
    assert HasName(r, name) ==> r[..k][|name| + 1..] == r[|name| + 1..k];
  }

  /** No field before `index` has the name. */
  ghost predicate Searched(misc: string, index: nat, name: string, all: Option<string>) {
    if index <= |misc| then Value(misc[index..], name) == all else all == None
  }

  lemma {:induction false} SearchStep(misc: string, index: nat, name: string, all: Option<string>)
    requires '|' !in name && index <= |misc| && Searched(misc, index, name, all)
    ensures var end := index + IndexOf(misc[index..], '|');
            if HasName(misc[index..], name)
            then index + |name| + 1 <= end <= |misc| && all == Some(misc[index + |name| + 1..end])
            else Searched(misc, end + 1, name, all)
  {
    var r := misc[index..];
    ValueFront(r, name);
    var k := IndexOf(r, '|');
    if HasName(r, name) {
      assert r[|name| + 1..k] == misc[index + |name| + 1..index + k];
    } else if k < |r| {
      assert r[k + 1..] == misc[index + k + 1..];
    }
  }

  lemma {:induction false} PassField(pre: string, r: string, k: nat)
    requires k < |r| && r[k] == '|'
    ensures pre + r == (pre + r[..k] + "|") + r[k + 1..]
  {
  }

  /** What is left when the first field of r goes, with one '|'. */
  function Erased(pre: string, r: string, k: nat): string
    requires k <= |r|
  {
    if k < |r| then pre + r[k + 1..] else if pre == "" then "" else pre[..|pre| - 1]
  }

  lemma {:induction false} EraseField(pre: string, r: string, k: nat)
    requires pre != "" && pre[|pre| - 1] == '|' && k <= |r| && (k < |r| ==> r[k] == '|')
    ensures (pre + r)[..|pre| - 1] + (pre + r)[|pre| + k..] == Erased(pre, r, k)
  {
  }

  lemma {:induction false} EraseFirst(r: string, k: nat)
    requires k <= |r|
    ensures "" + r == r && Erased("", r, k) == r[if k < |r| then k + 1 else k..]
  {
  }

  /** Dropping a field of the name. */
  lemma {:induction false} PassHit(pre: string, r: string, name: string, result: string, misc: string)
    requires '|' !in name && HasName(r, name) && Settled(pre + r, pre, r, name, result)
    requires misc == Erased(pre, r, IndexOf(r, '|'))
    ensures var k := IndexOf(r, '|');
            Erasing(misc, |pre|, pre, if k < |r| then r[k + 1..] else "", name, result)
  {
    PendingDrop(pre, r, name);
    PendingEmpty("", name);
  }

  lemma {:induction false} UnescapeStep(escaped: string, i: nat)
    requires i < |escaped|
    ensures Unescape(escaped[i..]) ==
            if escaped[i] != '\\' || i + 1 >= |escaped| then [escaped[i]] + Unescape(escaped[i + 1..])
            else UnescapePair(escaped[i + 1]) + Unescape(escaped[i + 2..])
  {
    var rest := escaped[i..];
    assert rest[1..] == escaped[i + 1..];
    assert i + 1 < |escaped| ==> rest[2..] == escaped[i + 2..];
  }

  class Token {
    var form: string
    var misc: string

    constructor (form: string, misc: string)
      ensures this.form == form && this.misc == misc
    {
      this.form, this.misc := form, misc;
    }

    /** The field search loop. */
    method GetMiscField(name: string) returns (value: Option<string>)
      requires '|' !in name
      ensures value == Value(misc, name)
    {
      var index: nat := 0;
      ghost var all := Value(misc, name);
      assert misc[0..] == misc;
      while index < |misc|
        invariant Searched(misc, index, name, all)
        decreases |misc| - index
      {
        SearchStep(misc, index, name, all);
        var end := Find(misc, '|', index);
        if NameAt(misc, index, name) {
          return Some(misc[index + |name| + 1..end]);
        }
        index := end + 1;
      }
      if index == |misc| { ValueFront("", name); }
      return None;
    }

    static predicate NameAt(s: string, index: nat, name: string)
      requires index <= |s|
      ensures NameAt(s, index, name) <==> HasName(s[index..], name)
    {
      var end := index + |name|;
      assert end < |s| ==> s[index..][..|name|] == s[index..end];
      end < |s| && s[index..end] == name && s[end] == '='
    }

    /** The removal loop: erases each matching field together with at most one neighbouring '|'. */
    method RemoveMiscField(name: string)
      requires '|' !in name
      modifies this`misc
      ensures misc == Removed(old(misc), name)
    {
      var index: nat := 0;
      ghost var result, pre, r := Removed(misc, name), "", misc;
      while index < |misc|
        invariant Erasing(misc, index, pre, r, name, result)
        decreases if index < |misc| then |misc| - index else 0
      {
        assert misc[index..] == r;
        var end := Find(misc, '|', index);
        ghost var k := IndexOf(r, '|');
        if NameAt(misc, index, name) {
          EraseAt(index, end, name, pre, r, result);
          r := if k < |r| then r[k + 1..] else "";
        } else {
          ErasingPass(misc, index, pre, r, name, result);
          if k < |r| { pre, r := pre + r[..k] + "|", r[k + 1..]; }
          index := end + 1;
        }
      }
      if index == |misc| { PendingEmpty(pre, name); }
    }

    /** The two erasures: the field with the '|' before it, or the first field with the '|' after it. */
    method EraseAt(index: nat, end: nat, name: string, ghost pre: string, ghost r: string, ghost result: string)
      requires '|' !in name && HasName(r, name) && Settled(misc, pre, r, name, result)
      requires index == |pre| && end == index + IndexOf(r, '|')
      modifies this`misc
      ensures |misc| < |old(misc)|
      ensures var k := IndexOf(r, '|'); Erasing(misc, index, pre, if k < |r| then r[k + 1..] else "", name, result)
    {
      ghost var k := IndexOf(r, '|');
      if index > 0 {
        EraseField(pre, r, k);
        misc := misc[..index - 1] + misc[end..];
      } else {
        EraseFirst(r, k);
        misc := misc[if end < |misc| then end + 1 else end..];
      }
      PassHit(pre, r, name, result, misc);
    }

    method StartMiscField(name: string)
      requires '|' !in name
      modifies this`misc
      ensures misc == Started(old(misc), name)
    {
      RemoveMiscField(name);
      if misc != "" { misc := misc + "|"; }
      misc := misc + name + "=";
    }

    /** Appends the escaped spaces to the string itself. */
    method AppendEscapedSpaces(spaces: string)
      modifies this`misc
      ensures misc == old(misc) + Escape(spaces)
    {
      for i := 0 to |spaces|
        invariant misc + Escape(spaces[i..]) == old(misc) + Escape(spaces)
      {
        assert spaces[i..][1..] == spaces[i + 1..];
        misc := misc + EscapeChar(spaces[i]);
      }
    }

    method UnescapeSpaces(escaped: string) returns (spaces: string)
      ensures spaces == Unescape(escaped)
    {
      spaces := "";
      var i := 0;
      while i < |escaped|
        invariant 0 <= i <= |escaped|
        invariant spaces + Unescape(escaped[i..]) == Unescape(escaped)
      {
        UnescapeStep(escaped, i);
        if escaped[i] != '\\' || i + 1 >= |escaped| {
          Assoc(spaces, [escaped[i]], Unescape(escaped[i + 1..]));
          spaces := spaces + [escaped[i]];
        } else {
          i := i + 1;
          Assoc(spaces, UnescapePair(escaped[i]), Unescape(escaped[i + 1..]));
          spaces := spaces + UnescapePair(escaped[i]);
        }
        i := i + 1;
      }
      assert spaces + "" == spaces;
    }

    method GetSpaceAfter() returns (r: bool)
      ensures r == SpaceAfter(misc)
    {
      var value := GetMiscField(SPACE_AFTER);
      r := value != Some("No");
    }

    method SetSpaceAfter(spaceAfter: bool)
      modifies this`misc
      ensures misc == WithSpaceAfter(old(misc), spaceAfter)
    {
      if spaceAfter {
        RemoveMiscField(SPACE_AFTER);
      } else {
        StartMiscField(SPACE_AFTER);
        misc := misc + "No";
      }
    }

    /** get_spaces_before and get_spaces_in_token, which differ in the field name only. */
    method GetSpaces(name: string) returns (spaces: string)
      requires '|' !in name
      ensures spaces == SpacesOf(misc, name)
    {
      var value := GetMiscField(name);
      match value {
        case Some(v) => spaces := UnescapeSpaces(v);
        case None => spaces := "";
      }
    }

    /** set_spaces_before and set_spaces_in_token. */
    method SetSpaces(name: string, spaces: string)
      requires '|' !in name
      modifies this`misc
      ensures misc == WithSpaces(old(misc), name, spaces)
    {
      if spaces == "" {
        RemoveMiscField(name);
      } else {
        StartMiscField(name);
        AppendEscapedSpaces(spaces);
      }
    }

    method GetSpacesAfter() returns (spaces: string)
      ensures spaces == SpacesAfter(misc)
    {
      var value := GetMiscField(SPACES_AFTER);
      match value {
        case Some(v) => spaces := UnescapeSpaces(v);
        case None =>
          var after := GetSpaceAfter();
          spaces := if after then " " else "";
      }
    }

    method SetSpacesAfter(spaces: string)
      modifies this`misc
      ensures misc == WithSpacesAfter(old(misc), spaces)
    {
      if spaces == "" {
        SetSpaceAfter(false);
        RemoveMiscField(SPACES_AFTER);
      } else if spaces == " " {
        SetSpaceAfter(true);
        RemoveMiscField(SPACES_AFTER);
      } else {
        SetSpaceAfter(true);
        StartMiscField(SPACES_AFTER);
        AppendEscapedSpaces(spaces);
      }
    }

    method GetTokenRange() returns (range: Option<(nat, nat)>)
      ensures range == TokenRange(misc)
    {
      var value := GetMiscField(TOKEN_RANGE);
      match value {
        case None => return None;
        case Some(v) =>
          var start := ScanLoop(v);
          if start.None? || start.value.1 == "" || start.value.1[0] != ':' { return None; }
          var end := ScanLoop(start.value.1[1..]);
          if end.None? { return None; }
          return Some((start.value.0, end.value.0));
      }
    }

    /** One digit loop of get_token_range, with its overflow check. */
    static method ScanLoop(s: string) returns (r: Option<(nat, string)>)
      ensures r == ScanDigits(s, 0, SIZE_MAX)
    {
      var value, str := 0, s;
      while str != "" && IsDigit(str[0])
        invariant 0 <= value
        invariant ScanDigits(str, value, SIZE_MAX) == ScanDigits(s, 0, SIZE_MAX)
        decreases |str|
      {
        if value > (SIZE_MAX - DigitValue(str[0])) / 10 { return None; }
        value, str := 10 * value + DigitValue(str[0]), str[1..];
      }
      return Some((value, str));
    }

    method SetTokenRange(start: nat, end: nat)
      modifies this`misc
      ensures misc == WithTokenRange(old(misc), start, end)
    {
      if start == SIZE_MAX {
        RemoveMiscField(TOKEN_RANGE);
      } else {
        StartMiscField(TOKEN_RANGE);
        misc := misc + PrintRange(start, end);
      }
    }
  }
}
