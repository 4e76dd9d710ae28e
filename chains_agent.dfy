/** ClassportProject of io.github.chains_project.classport.agent: the same
    build as the commons variant of that package, printed with "----" and
    ">   " indicators from nest level 0, with no last-child distinction. */
module ChainsAgent {
  import opened Records
  import opened SbomTree
  import ChainsCommons
  import SeqFacts

  const INDENTING_INDICATOR: string := "----"
  const INDENTED_INDICATOR: string := ">   "

  /** What precedes a node's id: nothing at level 0, else "----" per
      enclosing level below the first, then ">   ". */
  function ArrowIndent(level: nat): (r: string)
    ensures |r| == 4 * level
  {
    if level == 0 then [] else RepeatText(INDENTING_INDICATOR, level - 1) + INDENTED_INDICATOR
  }

  /** Below level 0 the indent ends in ">   " after level-1 "----" marks. */
  lemma ArrowIndentShape(level: nat)
    requires level > 0
    ensures var r := ArrowIndent(level);
      && r[..4 * (level - 1)] == RepeatText(INDENTING_INDICATOR, level - 1)
      && r[4 * level - 4..] == INDENTED_INDICATOR
  {
  }

  /** _writeTree(out, level): the node's line, then its children one level
      deeper, in order: the text opens with the indented id on a line of its
      own and ends with a newline. */
  function ArrowRender(n: Node, level: nat): (r: string)
    ensures |r| > 4 * level + |n.id|
    decreases n, 1
  {
    ArrowLine(n.id, level) + ArrowFirst(n, |n.children|, level + 1)
  }

  /** A node's text opens with its arrow indentation and ends with a
      newline. */
  lemma {:induction false} ArrowRenderShape(n: Node, level: nat)
    ensures var r := ArrowRender(n, level);
      r[..4 * level] == ArrowIndent(level) && r[|r| - 1] == '\n'
    decreases n
  {
    var k := |n.children|;
    var rest := ArrowFirst(n, k, level + 1);
    if k > 0 {
      ArrowRenderShape(n.children[k - 1], level + 1);
      assert rest == ArrowFirst(n, k - 1, level + 1) + ArrowRender(n.children[k - 1], level + 1);
    }
    LineThen(ArrowIndent(level), n.id, rest);
  }

  /** A node's own line. */
  function ArrowLine(id: string, level: nat): string
  {
    ArrowIndent(level) + id + "\n"
  }

  /** The first k children of n, as the child loop writes them. */
  function ArrowFirst(n: Node, k: nat, level: nat): string
    requires k <= |n.children|
    decreases n, 0, k
  {
    if k == 0 then [] else ArrowFirst(n, k - 1, level) + ArrowRender(n.children[k - 1], level)
  }

  /** writeTree: every top node from level 0. */
  function ArrowForest(ns: seq<Node>): string
  {
    ArrowFirst(Node([], ns), |ns|, 0)
  }

  /** The pretty-printing part of _writeTree, before the id. */
  method WriteArrowIndent(out: TextWriter, level: nat)
    modifies out
    ensures out.text == old(out.text) + ArrowIndent(level)
  {
    if level > 0 {
      var i := 0;
      while i < level - 1
        invariant 0 <= i <= level - 1
        invariant out.text == old(out.text) + RepeatText(INDENTING_INDICATOR, i)
      {
        out.Write(INDENTING_INDICATOR);
        i := i + 1;
      }
      out.Write(INDENTED_INDICATOR);
    }
  }

  /** _writeTree(out, nestLevel). */
  method WriteArrowNode(out: TextWriter, n: Node, level: nat)
    modifies out
    ensures out.text == old(out.text) + ArrowRender(n, level)
    decreases n, 1
  {
    WriteArrowIndent(out, level);
    out.Write(n.id);
    out.Write("\n");
    ghost var line := ArrowLine(n.id, level);
    assert out.text == old(out.text) + line;
    ghost var mid := out.text;
    WriteArrowChildren(out, n, level + 1);
    assert out.text == mid + ArrowFirst(n, |n.children|, level + 1);
    SeqFacts.Associative(old(out.text), line, ArrowFirst(n, |n.children|, level + 1));
  }

  /** The child loop of _writeTree. */
  method WriteArrowChildren(out: TextWriter, n: Node, level: nat)
    modifies out
    ensures out.text == old(out.text) + ArrowFirst(n, |n.children|, level)
    decreases n, 0
  {
    var i := 0;
    while i < |n.children|
      invariant 0 <= i <= |n.children|
      invariant out.text == old(out.text) + ArrowFirst(n, i, level)
    {
      WriteArrowNode(out, n.children[i], level);
      SeqFacts.Associative(old(out.text), ArrowFirst(n, i, level), ArrowRender(n.children[i], level));
      assert ArrowFirst(n, i + 1, level) == ArrowFirst(n, i, level) + ArrowRender(n.children[i], level);
      i := i + 1;
    }
  }

  class ClassportProject {
    var directDependencies: seq<Node>

    /** ClassportProject(sbom): the build of the commons variant. */
    constructor (s: Sbom, ghost rank: map<string, nat>)
      requires s.Valid() && ChainsCommons.Ranked(s, rank) && ChainsCommons.RanksDeps(s, rank, DirectDeps(s.Values()))
      ensures directDependencies == ChainsCommons.TopNodes(s, rank, DirectDeps(s.Values()))
    {
      var top := ChainsCommons.BuildTopNodes(s, rank, DirectDeps(s.Values()));
      directDependencies := top;
    }

    /** writeTree(out). */
    method WriteTree(out: TextWriter)
      modifies out
      ensures out.text == old(out.text) + ArrowForest(directDependencies)
    {
      var forest := directDependencies;
      var i := 0;
      while i < |forest|
        invariant 0 <= i <= |forest|
        invariant out.text == old(out.text) + ArrowFirst(Node([], forest), i, 0)
      {
        WriteArrowNode(out, forest[i], 0);
        SeqFacts.Associative(old(out.text), ArrowFirst(Node([], forest), i, 0), ArrowRender(forest[i], 0));
        i := i + 1;
      }
    }
  }

  // ---------------------------------------------------------------------
  // One line per node, as with the glyph printer

  lemma {:induction false} ArrowLineCount(n: Node, level: nat)
    requires OneLineIds(n)
    ensures LineBreaks(ArrowRender(n, level)) == Size(n)
    decreases n, 1
  {
    ArrowFirstLineCount(n, |n.children|, level + 1);
    var ind := ArrowIndent(level);
    ArrowIndentHasNoBreak(level);
    assert LineBreaks("\n") == 1 by { assert "\n"[..0] == []; }
    LineBreaksConcat(ind, n.id);
    LineBreaksConcat(ind + n.id, "\n");
    LineBreaksConcat(ind + n.id + "\n", ArrowFirst(n, |n.children|, level + 1));
  }

  /** An arrow indentation holds no line break. */
  lemma ArrowIndentHasNoBreak(level: nat)
    ensures LineBreaks(ArrowIndent(level)) == 0
  {
    var ind := ArrowIndent(level);
    if level > 0 {
      NoBreakChars(INDENTING_INDICATOR);
      RepeatHasNoBreak(INDENTING_INDICATOR, level - 1);
      NoBreakChars(INDENTED_INDICATOR);
      LineBreaksConcat(RepeatText(INDENTING_INDICATOR, level - 1), INDENTED_INDICATOR);
    } else {
      assert ind == [];
    }
  }

  lemma {:induction false} ArrowFirstLineCount(n: Node, k: nat, level: nat)
    requires k <= |n.children|
    requires OneLineIds(n)
    ensures LineBreaks(ArrowFirst(n, k, level)) == SizeOfFirst(n, k)
    decreases n, 0, k
  {
    if k > 0 {
      ArrowFirstLineCount(n, k - 1, level);
      ArrowLineCount(n.children[k - 1], level);
      LineBreaksConcat(ArrowFirst(n, k - 1, level), ArrowRender(n.children[k - 1], level));
    }
  }

  /** The agent's printout and the commons variant's printout of the same
      forest have the same number of lines: one per node occurrence. */
  lemma SameLineCountAsGlyphs(ns: seq<Node>)
    requires forall i :: 0 <= i < |ns| ==> OneLineIds(ns[i])
    ensures LineBreaks(ArrowForest(ns)) == LineBreaks(ForestText(ns))
  {
    assert OneLineIds(Node([], ns));
    ArrowFirstLineCount(Node([], ns), |ns|, 0);
    ForestLineCount(ns);
  }
}
