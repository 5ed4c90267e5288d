/** The CoNLL-U writer, src/sentence/output_format.cpp:43-103: comments, then for every word the multiword token that
    starts at it, the word itself unless it is the root, and the empty nodes that follow it, then an empty line. Empty
    columns are underscores, and in version 1 so are the spaces in forms and lemmas. The text is built by functions; the
    class writes it to a stream with running indices over multiword tokens and empty nodes. */
module ConlluWriter {
  import opened Sentences
  import opened Sequences
  import opened Strings
  import opened ConlluReader

  function Underscore(s: string): string { if s == "" then "_" else s }

  /** In version 1 the spaces of forms and lemmas become underscores. */
  function Spaced(version: nat, s: string): (r: string)
    ensures version >= 2 || ' ' !in s ==> r == s
  {
    if version >= 2 then s else NoSpaces(s)
  }

  function NoSpaces(s: string): (r: string)
    ensures |r| == |s| && forall k | 0 <= k < |s| :: r[k] == if s[k] == ' ' then '_' else s[k]
  {
    seq(|s|, k requires 0 <= k < |s| => if s[k] == ' ' then '_' else s[k])
  }

  function WordColumns(w: Word, i: nat, version: nat): (r: seq<string>)
    ensures |r| == 10
  {
    [ToDecimal(i), Spaced(version, w.form), Spaced(version, Underscore(w.lem)), Underscore(w.upostag),
     Underscore(w.xpostag), Underscore(w.feats), if w.head < 0 then "_" else ToDecimal(w.head), Underscore(w.deprel),
     Underscore(w.deps), Underscore(w.misc)]
  }

  function MultiwordColumns(m: MultiwordToken, version: nat): (r: seq<string>)
    requires 0 <= m.idFirst && 0 <= m.idLast
    ensures |r| == 10
  {
    [ToDecimal(m.idFirst) + "-" + ToDecimal(m.idLast), Spaced(version, m.form), "_", "_", "_",
     Underscore(m.feats), "_", "_", "_", Underscore(m.misc)]
  }

  function EmptyNodeColumns(e: EmptyNode, i: nat): (r: seq<string>)
    requires 0 <= e.index
    ensures |r| == 10
  {
    [ToDecimal(i) + "." + ToDecimal(e.index), e.form, Underscore(e.lem), Underscore(e.upostag), Underscore(e.xpostag),
     Underscore(e.feats), "_", "_", Underscore(e.deps), Underscore(e.misc)]
  }

  function Line(cols: seq<string>): string { Join(cols, '\t') + "\n" }

  ghost predicate Printable(t: Tree) {
    && |t.words| >= 1
    && (forall m | m in t.mwts :: 0 <= m.idFirst && 0 <= m.idLast)
    && (forall e | e in t.empties :: 0 <= e.index)
  }

  function CommentLines(comments: seq<string>): string {
    if comments == [] then "" else comments[0] + "\n" + CommentLines(comments[1..])
  }

  /** The text from word i on, when the first j multiword tokens and e empty nodes are written. */
  function WordsFrom(t: Tree, version: nat, i: nat, j: nat, e: nat): string
    requires Printable(t)
    decreases |t.words| - i, 1, 0
  {
    if i >= |t.words| then "\n"
    else WordPart(t, version, i, j) + EmptiesFrom(t, version, i, if StartsAt(t, i, j) then j + 1 else j, e)
  }

  predicate StartsAt(t: Tree, i: nat, j: nat) {
    i > 0 && j < |t.mwts| && t.mwts[j].idFirst == i
  }

  /** The line of the multiword token that starts at word i, if one does, and of word i unless it is the root. */
  function WordPart(t: Tree, version: nat, i: nat, j: nat): string
    requires Printable(t) && i < |t.words|
  {
    (if StartsAt(t, i, j) then assert t.mwts[j] in t.mwts; Line(MultiwordColumns(t.mwts[j], version)) else "") +
    (if i > 0 then Line(WordColumns(t.words[i], i, version)) else "")
  }

  function EmptiesFrom(t: Tree, version: nat, i: nat, j: nat, e: nat): string
    requires Printable(t) && i < |t.words|
    decreases |t.words| - i, 0, |t.empties| - e
  {
    if version >= 2 && e < |t.empties| && t.empties[e].id == i then
      assert t.empties[e] in t.empties;
      Line(EmptyNodeColumns(t.empties[e], i)) + EmptiesFrom(t, version, i, j, e + 1)
    else WordsFrom(t, version, i + 1, j, e)
  }

  function Write(t: Tree, version: nat): string
    requires Printable(t)
  {
    CommentLines(t.comments) + WordsFrom(t, version, 0, 0, 0)
  }

  // ---------- out of order ----------

  /** The tree without the multiword tokens from the j-th on. */
  function FirstRanges(t: Tree, j: nat): (r: Tree)
    requires Printable(t) && j <= |t.mwts|
    ensures Printable(r)
  {
    assert forall m | m in t.mwts[..j] :: m in t.mwts;
    t.(mwts := t.mwts[..j])
  }

  function FirstNodes(t: Tree, e: nat): (r: Tree)
    requires Printable(t) && e <= |t.empties|
    ensures Printable(r)
  {
    assert forall x | x in t.empties[..e] :: x in t.empties;
    t.(empties := t.empties[..e])
  }

  /** A multiword token that starts before the words to come is not written, and neither is any after it. */
  lemma {:induction false} RangeBlocks(t: Tree, version: nat, i: nat, j: nat, e: nat)
    requires Printable(t) && j < |t.mwts| && t.mwts[j].idFirst < i
    ensures WordsFrom(t, version, i, j, e) == WordsFrom(FirstRanges(t, j), version, i, j, e)
    decreases |t.words| - i, 1, 0
  {
    if i < |t.words| { RangeBlocksNodes(t, version, i, j, e); }
  }

  lemma {:induction false} RangeBlocksNodes(t: Tree, version: nat, i: nat, j: nat, e: nat)
    requires Printable(t) && j < |t.mwts| && t.mwts[j].idFirst < i < |t.words|
    ensures EmptiesFrom(t, version, i, j, e) == EmptiesFrom(FirstRanges(t, j), version, i, j, e)
    decreases |t.words| - i, 0, |t.empties| - e
  {
    if version >= 2 && e < |t.empties| && t.empties[e].id == i {
      assert t.empties[e] in t.empties;
      RangeBlocksNodes(t, version, i, j, e + 1);
    } else {
      RangeBlocks(t, version, i + 1, j, e);
    }
  }

  /** An empty node of a word before those to come is not written, and neither is any after it. */
  lemma {:induction false} NodeBlocks(t: Tree, version: nat, i: nat, j: nat, e: nat)
    requires Printable(t) && e < |t.empties| && t.empties[e].id < i
    ensures WordsFrom(t, version, i, j, e) == WordsFrom(FirstNodes(t, e), version, i, j, e)
    decreases |t.words| - i
  {
    if i < |t.words| {
      var j' := if StartsAt(t, i, j) then j + 1 else j;
      NodeBlocks(t, version, i + 1, j', e);
      assert EmptiesFrom(t, version, i, j', e) == WordsFrom(t, version, i + 1, j', e);
    }
  }

  class Writer {
    const version: nat
    var os: string

    constructor (version: nat)
      ensures os == "" && this.version == version
    {
      this.version, os := version, "";
    }

    method WriteSentence(s: Sentences.Sentence)
      requires Printable(Tree(s.words, s.multiwordTokens, s.emptyNodes, s.comments))
      modifies this`os
      ensures os == old(os) + Write(Tree(s.words, s.multiwordTokens, s.emptyNodes, s.comments), version)
    {
      ghost var t := Tree(s.words, s.multiwordTokens, s.emptyNodes, s.comments);
      WriteComments(s.comments);
      ghost var start := os;
      assert start == old(os) + CommentLines(t.comments);
      var i, j: nat, e: nat := 0, 0, 0;
      while i < |s.words|
        invariant 0 <= i <= |s.words|
        invariant os + WordsFrom(t, version, i, j, e) == start + WordsFrom(t, version, 0, 0, 0)
      {
        ghost var all := os + WordsFrom(t, version, i, j, e);
        Assoc(os, WordPart(t, version, i, j), EmptiesFrom(t, version, i, if StartsAt(t, i, j) then j + 1 else j, e));
        j := WriteWord(s.words[i], s.multiwordTokens, t, i, j);
        e := WriteEmptyNodes(s.emptyNodes, t, i, j, e, all);
        i := i + 1;
      }
      Assoc(old(os), CommentLines(t.comments), WordsFrom(t, version, 0, 0, 0));
      os := os + "\n";
    }

    method WriteComments(comments: seq<string>)
      modifies this`os
      ensures os == old(os) + CommentLines(comments)
    {
      for k := 0 to |comments|
        invariant os + CommentLines(comments[k..]) == old(os) + CommentLines(comments)
      {
        assert comments[k..][1..] == comments[k + 1..];
        Assoc(os, comments[k] + "\n", CommentLines(comments[k + 1..]));
        os := os + (comments[k] + "\n");
      }
    }

    /** A multiword token, if one starts here, and the word unless it is the root. */
    method WriteWord(w: Word, mwts: seq<MultiwordToken>, ghost t: Tree, i: nat, from: nat) returns (j: nat)
      requires Printable(t) && i < |t.words| && t.words[i] == w && t.mwts == mwts
      modifies this`os
      ensures j == if StartsAt(t, i, from) then from + 1 else from
      ensures os == old(os) + WordPart(t, version, i, from)
    {
      j := from;
      var first, second := "", "";
      if i > 0 && j < |mwts| && mwts[j].idFirst == i {
        assert t.mwts[j] in t.mwts;
        first := Line(MultiwordColumns(mwts[j], version));
        j := j + 1;
      }
      if i > 0 { second := Line(WordColumns(w, i, version)); }
      os := os + (first + second);
    }

    /** The inner loop over the empty nodes that follow word i. */
    method WriteEmptyNodes(empties: seq<EmptyNode>, ghost t: Tree, i: nat, ghost j: nat, from: nat,
        ghost all: string) returns (e: nat)
      requires Printable(t) && t.empties == empties && i < |t.words|
      requires os + EmptiesFrom(t, version, i, j, from) == all
      modifies this`os
      ensures os + WordsFrom(t, version, i + 1, j, e) == all
    {
      e := from;
      while version >= 2 && e < |empties| && empties[e].id == i
        invariant os + EmptiesFrom(t, version, i, j, e) == all
      {
        assert empties[e] in t.empties;
        Assoc(os, Line(EmptyNodeColumns(empties[e], i)), EmptiesFrom(t, version, i, j, e + 1));
        os := os + Line(EmptyNodeColumns(empties[e], i));
        e := e + 1;
      }
    }
  }
}
