/** What the ClassportProject variants share: the SBOM they are given (a map
    from dependency id to its ClassportInfo record, whose iteration order is
    made explicit), the tree of dependency nodes they build, the Writer the
    tree is printed to, and the "+- " / "\- " / "|  " text of the two variants
    that print with those glyphs. */
module SbomTree {
  import opened Records
  import SeqFacts

  /** A Map<String, ClassportInfo> together with the order in which its
      keySet() and values() are iterated. */
  datatype Sbom = Sbom(entries: map<string, ClassportInfo>, keys: seq<string>)
  {
    /** The order lists every key exactly once. */
    predicate Valid()
    {
      && entries.Keys == (set k | k in keys)
      && (forall i, j :: 0 <= i < j < |keys| ==> keys[i] != keys[j])
    }

    /** values(), in iteration order. */
    function Values(): (vs: seq<ClassportInfo>)
      requires Valid()
      ensures |vs| == |keys| && forall i :: 0 <= i < |keys| ==> vs[i] == entries[keys[i]]
    {
      seq(|keys|, i requires 0 <= i < |keys| => entries[keys[i]])
    }
  }

  /** The records marked as direct dependencies, in values() order. */
  function DirectDeps(vs: seq<ClassportInfo>): (ds: seq<ClassportInfo>)
    ensures |ds| <= |vs|
    ensures forall d :: d in ds <==> d in vs && d.isDirectDependency
  {
    if vs == [] then []
    else (if vs[0].isDirectDependency then [vs[0]] else []) + DirectDeps(vs[1..])
  }

  /** The ids that the direct dependencies that are keys carry, in order. */
  function KeyedIds(s: Sbom, deps: seq<ClassportInfo>): (ids: seq<string>)
    ensures forall x :: x in ids <==> x in s.entries && exists d :: d in deps && d.id == x
  {
    if deps == [] then []
    else (if deps[0].id in s.entries then [deps[0].id] else []) + KeyedIds(s, deps[1..])
  }

  /** The ids in a list that are SBOM keys, in order. */
  function KeepKeys(s: Sbom, ids: seq<string>): (r: seq<string>)
    ensures |r| <= |ids|
    ensures forall x :: x in r <==> x in ids && x in s.entries
  {
    if ids == [] then []
    else KeepKeys(s, ids[..|ids| - 1]) + (if ids[|ids| - 1] in s.entries then [ids[|ids| - 1]] else [])
  }

  /** The kept keys of the first k ids: those of the first k - 1, then id
      k - 1 when it is a key. */
  lemma KeepKeysPrefix(s: Sbom, ids: seq<string>, k: nat)
    requires 0 < k <= |ids|
    ensures KeepKeys(s, ids[..k]) == KeepKeys(s, ids[..k - 1]) + (if ids[k - 1] in s.entries then [ids[k - 1]] else [])
  {
    assert ids[..k][..k - 1] == ids[..k - 1];
  }

  /** A printed dependency node: the id it prints and its child nodes. Nodes
      are never changed once built, so a node shared between two parents is
      the same value under both. */
  datatype Node = Node(id: string, children: seq<Node>)

  /** Number of nodes in a tree, shared nodes counted once per occurrence. */
  function Size(n: Node): (k: nat)
    ensures k >= 1
    decreases n, 1
  {
    1 + SizeOfFirst(n, |n.children|)
  }

  function SizeOfFirst(n: Node, k: nat): nat
    requires k <= |n.children|
    decreases n, 0, k
  {
    if k == 0 then 0 else SizeOfFirst(n, k - 1) + Size(n.children[k - 1])
  }

  /** The ids of a list of nodes. */
  function Ids(ns: seq<Node>): (ids: seq<string>)
    ensures |ids| == |ns| && forall i :: 0 <= i < |ns| ==> ids[i] == ns[i].id
  {
    seq(|ns|, i requires 0 <= i < |ns| => ns[i].id)
  }

  lemma IdsConcat(a: seq<Node>, b: seq<Node>)
    ensures Ids(a + b) == Ids(a) + Ids(b)
  {
  }

  /** java.io.Writer: the text written so far. */
  class TextWriter {
    var text: string

    constructor()
      ensures text == []
    {
      text := [];
    }

    method Write(s: string)
      modifies this
      ensures text == old(text) + s
    {
      text := text + s;
    }
  }

  /** s written k times. */
  function RepeatText(s: string, k: nat): (r: string)
    ensures |r| == k * |s|
  {
    if k == 0 then [] else RepeatText(s, k - 1) + s
  }

  // ---------------------------------------------------------------------
  // The "+- " / "\- " tree text

  const NESTING_DELIM: string := "|  "
  const ITEM_SPECIFIER: string := "+-"
  const LAST_ITEM_SPECIFIER: string := "\\-"

  /** What precedes a node's id at a nesting level: nothing at level 0, else
      one "|  " per enclosing level and "\- " for a last child, "+- " for
      any other. Every level takes three characters. */
  function Indent(level: nat, isLast: bool): (r: string)
    ensures |r| == 3 * level
  {
    if level == 0 then []
    else RepeatText(NESTING_DELIM, level - 1) + (if isLast then LAST_ITEM_SPECIFIER else ITEM_SPECIFIER) + " "
  }

  /** Below level 0 the indent is level-1 nesting delimiters, then the
      glyph that tells a last child from the others. */
  lemma IndentShape(level: nat, isLast: bool)
    requires level > 0
    ensures var r := Indent(level, isLast);
      && r[..3 * (level - 1)] == RepeatText(NESTING_DELIM, level - 1)
      && r[3 * level - 3..] == (if isLast then "\\- " else "+- ")
  {
  }

  /** _writeTree(out, level, isLast): the node's line, then its children one
      level deeper, in order, only the final child marked last. */
  function Render(n: Node, level: nat, isLast: bool): (r: string)
    ensures |r| > 3 * level + |n.id|
    decreases n, 1
  {
    Line(n.id, level, isLast) + RenderFirst(n, |n.children|, level + 1)
  }

  /** A node's text opens with its indentation and ends with a newline. */
  lemma {:induction false} RenderShape(n: Node, level: nat, isLast: bool)
    ensures var r := Render(n, level, isLast);
      r[..3 * level] == Indent(level, isLast) && r[|r| - 1] == '\n'
    decreases n
  {
    var k := |n.children|;
    var rest := RenderFirst(n, k, level + 1);
    if k > 0 {
      RenderShape(n.children[k - 1], level + 1, true);
      assert rest == RenderFirst(n, k - 1, level + 1) + Render(n.children[k - 1], level + 1, true);
    }
    LineThen(Indent(level, isLast), n.id, rest);
  }

  /** A node's own line. */
  function Line(id: string, level: nat, isLast: bool): string
  {
    Indent(level, isLast) + id + "\n"
  }

  /** An indented line followed by more text starts with the indent and
      ends with a newline when the text after it does or is empty. */
  lemma LineThen(indent: string, id: string, rest: string)
    ensures var r := indent + id + "\n" + rest;
      && |r| > |indent| + |id| && r[..|indent|] == indent
      && (rest == [] || rest[|rest| - 1] == '\n' ==> r[|r| - 1] == '\n')
  {
    var r := indent + id + "\n" + rest;
    assert r[..|indent|] == indent;
    if rest != [] {
      assert r[|r| - 1] == rest[|rest| - 1];
    }
  }

  /** The first k children of n, as the child loop writes them. */
  function RenderFirst(n: Node, k: nat, level: nat): string
    requires k <= |n.children|
    decreases n, 0, k
  {
    if k == 0 then []
    else RenderFirst(n, k - 1, level) + Render(n.children[k - 1], level, k - 1 == |n.children| - 1)
  }

  /** A list of top nodes printed at level 1, only the final one marked
      last: they are printed as the children of a nameless level-0 node. */
  function ForestText(ns: seq<Node>): string
  {
    RenderFirst(Node([], ns), |ns|, 1)
  }

  /** A non-empty forest's text ends with a line break; an empty one is
      empty. */
  lemma ForestTextShape(ns: seq<Node>)
    ensures ns == [] ==> ForestText(ns) == []
    ensures ns != [] ==> ForestText(ns) != [] && ForestText(ns)[|ForestText(ns)| - 1] == '\n'
  {
    if ns != [] {
      var k := |ns|;
      var last := Render(ns[k - 1], 1, true);
      RenderShape(ns[k - 1], 1, true);
      assert ForestText(ns) == RenderFirst(Node([], ns), k - 1, 1) + last;
    }
  }

  /** The pretty-printing part of _writeTree, before the id. */
  method WriteIndent(out: TextWriter, level: nat, isLast: bool)
    modifies out
    ensures out.text == old(out.text) + Indent(level, isLast)
  {
    if level > 0 {
      var i := 0;
      while i < level - 1
        invariant 0 <= i <= level - 1
        invariant out.text == old(out.text) + RepeatText(NESTING_DELIM, i)
      {
        out.Write(NESTING_DELIM);
        i := i + 1;
      }
      if isLast {
        out.Write(LAST_ITEM_SPECIFIER + " ");
      } else {
        out.Write(ITEM_SPECIFIER + " ");
      }
    }
  }

  /** _writeTree: the node's own line, then its children. */
  method WriteNode(out: TextWriter, n: Node, level: nat, isLast: bool)
    modifies out
    ensures out.text == old(out.text) + Render(n, level, isLast)
    decreases n, 1
  {
    ghost var line := Line(n.id, level, isLast);
    WriteIndent(out, level, isLast);
    out.Write(n.id);
    out.Write("\n");
    assert out.text == old(out.text) + line;
    ghost var mid := out.text;
    WriteChildren(out, n, level + 1);
    assert out.text == mid + RenderFirst(n, |n.children|, level + 1);
    SeqFacts.Associative(old(out.text), line, RenderFirst(n, |n.children|, level + 1));
  }

  /** The child loop of _writeTree: each child one level deeper, only the
      final one marked last. */
  method WriteChildren(out: TextWriter, n: Node, level: nat)
    modifies out
    ensures out.text == old(out.text) + RenderFirst(n, |n.children|, level)
    decreases n, 0
  {
    var i := 0;
    while i < |n.children|
      invariant 0 <= i <= |n.children|
      invariant out.text == old(out.text) + RenderFirst(n, i, level)
    {
      WriteNode(out, n.children[i], level, i == |n.children| - 1);
      i := i + 1;
    }
  }

  // ---------------------------------------------------------------------
  // One line per node

  /** Number of line breaks in a text. */
  function LineBreaks(s: string): nat
  {
    if s == [] then 0 else (if s[|s| - 1] == '\n' then 1 else 0) + LineBreaks(s[..|s| - 1])
  }

  lemma {:induction false} LineBreaksConcat(a: string, b: string)
    ensures LineBreaks(a + b) == LineBreaks(a) + LineBreaks(b)
    decreases |b|
  {
    if b != [] {
      assert (a + b)[..|a + b| - 1] == a + b[..|b| - 1];
      LineBreaksConcat(a, b[..|b| - 1]);
    } else {
      assert a + b == a;
    }
  }

  lemma {:induction false} NoBreakChars(s: string)
    requires forall i :: 0 <= i < |s| ==> s[i] != '\n'
    ensures LineBreaks(s) == 0
    decreases |s|
  {
    if s != [] {
      NoBreakChars(s[..|s| - 1]);
    }
  }

  lemma {:induction false} RepeatHasNoBreak(s: string, k: nat)
    requires LineBreaks(s) == 0
    ensures LineBreaks(RepeatText(s, k)) == 0
  {
    if k > 0 {
      RepeatHasNoBreak(s, k - 1);
      LineBreaksConcat(RepeatText(s, k - 1), s);
    }
  }

  /** No id in the tree holds a line break. */
  predicate OneLineIds(n: Node)
    decreases n
  {
    && LineBreaks(n.id) == 0
    && forall i :: 0 <= i < |n.children| ==> OneLineIds(n.children[i])
  }

  /** The printed tree has one line per node occurrence. */
  lemma {:induction false} RenderLineCount(n: Node, level: nat, isLast: bool)
    requires OneLineIds(n)
    ensures LineBreaks(Render(n, level, isLast)) == Size(n)
    decreases n, 1
  {
    var rest := RenderFirst(n, |n.children|, level + 1);
    RenderFirstLineCount(n, |n.children|, level + 1);
    var ind := Indent(level, isLast);
    var line := Line(n.id, level, isLast);
    IndentHasNoBreak(level, isLast);
    assert LineBreaks("\n") == 1 by { assert "\n"[..0] == []; }
    LineBreaksConcat(ind, n.id);
    LineBreaksConcat(ind + n.id, "\n");
    assert LineBreaks(line) == 1;
    LineBreaksConcat(line, rest);
  }

  /** An indentation holds no line break. */
  lemma IndentHasNoBreak(level: nat, isLast: bool)
    ensures LineBreaks(Indent(level, isLast)) == 0
  {
    var ind := Indent(level, isLast);
    if level > 0 {
      NoBreakChars(NESTING_DELIM);
      RepeatHasNoBreak(NESTING_DELIM, level - 1);
      var glyph := if isLast then LAST_ITEM_SPECIFIER else ITEM_SPECIFIER;
      NoBreakChars(glyph + " ");
      LineBreaksConcat(RepeatText(NESTING_DELIM, level - 1), glyph + " ");
      assert ind == RepeatText(NESTING_DELIM, level - 1) + (glyph + " ");
    } else {
      assert ind == [];
    }
  }

  lemma {:induction false} RenderFirstLineCount(n: Node, k: nat, level: nat)
    requires k <= |n.children|
    requires OneLineIds(n)
    ensures LineBreaks(RenderFirst(n, k, level)) == SizeOfFirst(n, k)
    decreases n, 0, k
  {
    if k > 0 {
      RenderFirstLineCount(n, k - 1, level);
      RenderLineCount(n.children[k - 1], level, k - 1 == |n.children| - 1);
      LineBreaksConcat(RenderFirst(n, k - 1, level), Render(n.children[k - 1], level, k - 1 == |n.children| - 1));
    }
  }

  /** A printed forest has one line per node occurrence in it. */
  lemma ForestLineCount(ns: seq<Node>)
    requires forall i :: 0 <= i < |ns| ==> OneLineIds(ns[i])
    ensures LineBreaks(ForestText(ns)) == SizeOfFirst(Node([], ns), |ns|)
  {
    assert OneLineIds(Node([], ns));
    RenderFirstLineCount(Node([], ns), |ns|, 1);
  }
}
