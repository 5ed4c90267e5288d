/** The sentence data of src/sentence: words, multiword tokens, empty nodes and the
    dependency tree, whose `children` lists index the `head` fields. */
module Sentences {

  datatype Option<+T> = None | Some(value: T)

  const ROOT_FORM := "<root>"

  datatype Word = Word(
    id: int, form: string, lem: string, upostag: string, xpostag: string, feats: string,
    head: int, deprel: string, deps: string, misc: string, children: seq<int>)

  datatype MultiwordToken = MultiwordToken(idFirst: int, idLast: int, form: string, feats: string, misc: string)

  datatype EmptyNode = EmptyNode(
    id: int, index: int, form: string, lem: string, upostag: string, xpostag: string,
    feats: string, deps: string, misc: string)

  /** A word as the constructor leaves it: no head, every other field empty. */
  function NewWord(id: int, form: string): Word {
    Word(id, form, "", "", "", "", -1, "", "", "", [])
  }

  const ROOT := Word(0, ROOT_FORM, ROOT_FORM, ROOT_FORM, ROOT_FORM, ROOT_FORM, -1, "", "", "", [])

  // ---------- surface tokens ----------

  /** A token as it stands in the text: one plain word, or a multiword token over the words [first, last]. */
  datatype Surface = Surface(form: string, misc: string, first: nat, last: nat, isMultiword: bool)

  /** Multiword ranges are nonempty, in order, disjoint and cover existing words. */
  ghost predicate OrderedRanges(n: nat, mwts: seq<MultiwordToken>) {
    && (forall j {:trigger mwts[j]} | 0 <= j < |mwts| :: 1 <= mwts[j].idFirst <= mwts[j].idLast < n)
    && (forall j, k {:trigger mwts[j], mwts[k]} | 0 <= j < k < |mwts| :: mwts[j].idLast < mwts[k].idFirst)
  }

  /** The first token from word i on, as the loops over a sentence pick it. */
  function SurfaceAt(words: seq<Word>, mwts: seq<MultiwordToken>, i: nat, j: nat): Surface
    requires OrderedRanges(|words|, mwts) && i < |words|
  {
    if j < |mwts| && mwts[j].idFirst == i then Surface(mwts[j].form, mwts[j].misc, i, mwts[j].idLast, true)
    else Surface(words[i].form, words[i].misc, i, i, false)
  }

  /** The tokens from word i on, when the multiword tokens before the j-th one are already passed. */
  function SurfaceFrom(words: seq<Word>, mwts: seq<MultiwordToken>, i: nat, j: nat): (r: seq<Surface>)
    requires OrderedRanges(|words|, mwts)
    decreases |words| - i
  {
    if i >= |words| then []
    else
      var t := SurfaceAt(words, mwts, i, j);
      [t] + SurfaceFrom(words, mwts, t.last + 1, if t.isMultiword then j + 1 else j)
  }

  /** Tokens that cover the words from i to n - 1, each starting right after the one before. */
  ghost predicate Tiling(ts: seq<Surface>, i: nat, n: nat) {
    if ts == [] then i == n
    else
      && ts[0].first == i <= ts[0].last < n
      && (ts[0].isMultiword || ts[0].last == i)
      && Tiling(ts[1..], ts[0].last + 1, n)
  }

  lemma {:induction false} SurfaceTiles(words: seq<Word>, mwts: seq<MultiwordToken>, i: nat, j: nat)
    requires OrderedRanges(|words|, mwts) && i <= |words|
    ensures Tiling(SurfaceFrom(words, mwts, i, j), i, |words|)
    decreases |words| - i
  {
    if i < |words| {
      SurfaceStep(words, mwts, i, j);
      var t := SurfaceAt(words, mwts, i, j);
      SurfaceTiles(words, mwts, t.last + 1, if t.isMultiword then j + 1 else j);
    }
  }

  lemma {:induction false} SurfaceStep(words: seq<Word>, mwts: seq<MultiwordToken>, i: nat, j: nat)
    requires OrderedRanges(|words|, mwts) && i < |words|
    ensures var t := SurfaceAt(words, mwts, i, j);
            var ts := SurfaceFrom(words, mwts, i, j);
            && i <= t.last < |words| && ts != [] && ts[0] == t
            && ts[1..] == SurfaceFrom(words, mwts, t.last + 1, if t.isMultiword then j + 1 else j)
  {
  }

  // ---------- the tree ----------

  ghost predicate Ascending(s: seq<int>) {
    forall i, j | 0 <= i < j < |s| :: s[i] < s[j]
  }

  ghost predicate ChildrenAscending(words: seq<Word>) {
    forall k {:trigger words[k]} | 0 <= k < |words| :: Ascending(words[k].children)
  }

  /** `children` is exactly the index of `head`. */
  ghost predicate ChildrenIndexHeads(words: seq<Word>) {
    && ChildrenAscending(words)
    && forall k, c {:trigger c in words[k].children} | 0 <= k < |words| ::
         c in words[k].children <==> 0 <= c < |words| && words[c].head == k
  }

  /** The ids below n whose head is h, in order. */
  function ChildrenOf(words: seq<Word>, h: int, n: nat): (r: seq<int>)
    requires n <= |words|
    ensures forall c :: c in r <==> 0 <= c < n && words[c].head == h
    ensures Ascending(r)
  {
    if n == 0 then []
    else
      var before := ChildrenOf(words, h, n - 1);
      assert forall k | 0 <= k < |before| :: before[k] in before;
      if words[n - 1].head == h then before + [n - 1] else before
  }

  /** An ascending list is determined by its elements, so an index of the heads is unique. */
  lemma {:induction false} AscendingUnique(a: seq<int>, b: seq<int>)
    requires Ascending(a) && Ascending(b)
    requires forall c :: c in a <==> c in b
    ensures a == b
  {
    assert (a != [] ==> a[0] in a) && (b != [] ==> b[0] in b);
    if a == [] || b == [] {
    } else {
      assert a[|a| - 1] in a && a[|a| - 1] in b;
      assert b[|b| - 1] in b && b[|b| - 1] in a;
      var x := a[|a| - 1];
      assert x == b[|b| - 1];
      var a', b' := a[..|a| - 1], b[..|b| - 1];
      forall c ensures c in a' <==> c in b' {
        assert a == a' + [x] && b == b' + [x];
        if c in a' { assert c in b && c != x; }
        if c in b' { assert c in a && c != x; }
      }
      AscendingUnique(a', b');
    }
  }

  class Sentence {
    var words: seq<Word>
    var multiwordTokens: seq<MultiwordToken>
    var emptyNodes: seq<EmptyNode>
    var comments: seq<string>

    constructor ()
      ensures words == [ROOT] && multiwordTokens == [] && emptyNodes == [] && comments == []
    {
      words, multiwordTokens, emptyNodes, comments := [ROOT], [], [], [];
    }

    method Clear()
      modifies this
      ensures words == [ROOT] && multiwordTokens == [] && emptyNodes == [] && comments == []
    {
      multiwordTokens, emptyNodes, comments := [], [], [];
      words := [ROOT];
    }

    method AddWord(form: string)
      modifies this`words
      ensures words == old(words) + [NewWord(|old(words)|, form)]
    {
      words := words + [NewWord(|words|, form)];
    }

    /** Moves word `id` under `head`. Both children lists change, and only by `id`; the lists stay
        ascending, so by AscendingUnique the contract fixes the whole new state. */
    method SetHead(id: nat, head: int, deprel: string)
      requires id < |words| && head < |words| && words[id].head < |words|
      requires ChildrenAscending(words)
      modifies this`words
      ensures |words| == |old(words)|
      ensures ChildrenAscending(words)
      ensures forall k {:trigger words[k]} | 0 <= k < |words| && k != id ::
                words[k] == old(words)[k].(children := words[k].children)
      ensures words[id] == old(words)[id].(head := head, deprel := deprel, children := words[id].children)
      ensures forall k, c {:trigger c in words[k].children} | 0 <= k < |words| ::
                c in words[k].children <==>
                (k == head && c == id) || (c in old(words)[k].children && !(c == id && k == old(words)[id].head))
      ensures old(ChildrenIndexHeads(words)) ==> ChildrenIndexHeads(words)
    {
      var from := words[id].head;
      if from >= 0 {
        var rest := Erase(words[from].children, id);
        words := words[from := words[from].(children := rest)];
      }
      words := words[id := words[id].(head := head, deprel := deprel)];
      if head >= 0 {
        var more := Insert(words[head].children, id);
        words := words[head := words[head].(children := more)];
      }
    }

    /** The removal loop of set_head: walks from the back while the entries are not below `id`. */
    static method Erase(children: seq<int>, id: int) returns (rest: seq<int>)
      requires Ascending(children)
      ensures Ascending(rest)
      ensures forall c :: c in rest <==> c in children && c != id
    {
      rest := children;
      var i := |children|;
      while i > 0 && children[i - 1] >= id
        invariant 0 <= i <= |children|
        invariant rest == children
        invariant forall k | i <= k < |children| :: children[k] > id
      {
        if children[i - 1] == id {
          RemovedAt(children, i - 1);
          rest := children[..i - 1] + children[i..];
          return;
        }
        i := i - 1;
      }
    }

    /** The insertion loop of set_head: finds the place of `id` from the back, inserts it unless present. */
    static method Insert(children: seq<int>, id: int) returns (more: seq<int>)
      requires Ascending(children)
      ensures Ascending(more)
      ensures forall c :: c in more <==> c in children || c == id
    {
      more := children;
      var i := |children|;
      while i > 0 && children[i - 1] > id
        invariant 0 <= i <= |children|
        invariant forall k | i <= k < |children| :: children[k] > id
      {
        i := i - 1;
      }
      if i == 0 || children[i - 1] < id {
        InsertedAt(children, i, id);
        more := children[..i] + [id] + children[i..];
      }
    }
  }

  lemma {:induction false} RemovedAt(s: seq<int>, i: nat)
    requires i < |s| && Ascending(s)
    ensures var r := s[..i] + s[i + 1..];
            Ascending(r) && forall c :: c in r <==> c in s && c != s[i]
  {
    var r := s[..i] + s[i + 1..];
    forall c ensures c in r <==> c in s && c != s[i] {
      if c in s && c != s[i] {
        var k :| 0 <= k < |s| && s[k] == c;
        if k < i { assert r[k] == c; } else { assert r[k - 1] == c; }
      }
    }
  }

  lemma {:induction false} InsertedAt(s: seq<int>, i: nat, x: int)
    requires i <= |s| && Ascending(s)
    requires i == 0 || s[i - 1] < x
    requires forall k | i <= k < |s| :: s[k] > x
    ensures var r := s[..i] + [x] + s[i..];
            Ascending(r) && forall c :: c in r <==> c in s || c == x
  {
    var r := s[..i] + [x] + s[i..];
    assert r[i] == x;
    forall c | c in s ensures c in r {
      var k :| 0 <= k < |s| && s[k] == c;
      if k < i { assert r[k] == c; } else { assert r[k + 1] == c; }
    }
  }
}
