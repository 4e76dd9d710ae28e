/** ClassportProject of io.github.chains_project.classport.commons: one node
    per direct dependency that is an SBOM key, each node built by the
    SBOMNode constructor, which recurses into every child id that is a key
    (no memo, no cycle guard), printed with the "+- " / "\- " / "|  "
    glyphs from nest level 1. */
module ChainsCommons {
  import opened Wrappers
  import opened SeqFacts
  import opened Records
  import opened SbomTree

  /** A ranking of some SBOM keys that strictly falls along childIds: every
      child id of a ranked key that is itself a key is ranked, and lower.
      The SBOMNode constructor only returns when the keys reachable from its
      id form no cycle, and those keys are exactly what a ranking closed
      under childIds has to hold; keys outside it, cycles among them
      included, are never visited. */
  ghost predicate Ranked(s: Sbom, rank: map<string, nat>)
  {
    && rank.Keys <= s.entries.Keys
    && forall k, c :: k in rank && c in s.entries[k].childIds && c in s.entries ==> c in rank && rank[c] < rank[k]
  }

  /** Every direct dependency that is an SBOM key is ranked: the recursion
      starts from those keys only. */
  ghost predicate RanksDeps(s: Sbom, rank: map<string, nat>, deps: seq<ClassportInfo>)
  {
    forall d :: d in deps && d.id in s.entries ==> d.id in rank
  }

  /** new SBOMNode(id, sbom) for a key: the node and, in order, the nodes of
      its child ids that are keys, each built afresh. */
  function Tree(s: Sbom, ghost rank: map<string, nat>, id: string): (n: Node)
    requires Ranked(s, rank) && id in rank
    ensures n.id == id
    decreases rank[id], 1
  {
    Node(id, Kids(s, rank, id, |s.entries[id].childIds|))
  }

  /** buildGraph's loop over the first k child ids of key `parent`. */
  function Kids(s: Sbom, ghost rank: map<string, nat>, parent: string, k: nat): (ns: seq<Node>)
    requires Ranked(s, rank) && parent in rank && k <= |s.entries[parent].childIds|
    decreases rank[parent], 0, k
  {
    if k == 0 then []
    else
      var c := s.entries[parent].childIds[k - 1];
      Kids(s, rank, parent, k - 1) + (if c in s.entries then [Tree(s, rank, c)] else [])
  }

  /** A node's children are its child ids filtered to SBOM keys, in order. */
  lemma {:induction false} KidsAreKeptChildren(s: Sbom, rank: map<string, nat>, parent: string, k: nat)
    requires Ranked(s, rank) && parent in rank && k <= |s.entries[parent].childIds|
    ensures Ids(Kids(s, rank, parent, k)) == KeepKeys(s, s.entries[parent].childIds[..k])
  {
    var ids := s.entries[parent].childIds;
    if k > 0 {
      KidsAreKeptChildren(s, rank, parent, k - 1);
      var prev := Kids(s, rank, parent, k - 1);
      var c := ids[k - 1];
      var last: seq<Node> := if c in s.entries then [Tree(s, rank, c)] else [];
      assert Kids(s, rank, parent, k) == prev + last;
      KeepKeysPrefix(s, ids, k);
      IdsConcat(prev, last);
      assert Ids(last) == if c in s.entries then [c] else [];
    }
  }

  /** Each child is the full tree of its own key: every occurrence of a key
      is rebuilt, nothing is shared with an earlier occurrence. */
  lemma {:induction false} KidsAreRebuilt(s: Sbom, rank: map<string, nat>, parent: string, k: nat)
    requires Ranked(s, rank) && parent in rank && k <= |s.entries[parent].childIds|
    ensures var ns := Kids(s, rank, parent, k);
      forall i {:trigger ns[i]} :: 0 <= i < |ns| ==> ns[i].id in rank && ns[i] == Tree(s, rank, ns[i].id)
  {
    if k > 0 {
      KidsAreRebuilt(s, rank, parent, k - 1);
      assert forall i {:trigger Kids(s, rank, parent, k - 1)[i]} :: 0 <= i < |Kids(s, rank, parent, k - 1)| ==> Kids(s, rank, parent, k - 1)[i].id in rank;
      var prev := Kids(s, rank, parent, k - 1);
      var c := s.entries[parent].childIds[k - 1];
      var last: seq<Node> := if c in s.entries then [Tree(s, rank, c)] else [];
      assert Kids(s, rank, parent, k) == prev + last;
      forall i | 0 <= i < |prev + last|
        ensures (prev + last)[i].id in rank && (prev + last)[i] == Tree(s, rank, (prev + last)[i].id)
      {
        if i >= |prev| {
          assert c in rank && (prev + last)[i] == Tree(s, rank, c);
        } else {
          assert (prev + last)[i] == prev[i];
        }
      }
    }
  }

  /** new SBOMNode(id, sbom): NoSuchElementException for an id that is not
      an SBOM key ("appears to be unused"), else the built tree. Only the
      keys reachable from `id` need a rank. */
  function NewNode(s: Sbom, ghost rank: map<string, nat>, id: string): (r: Result<Node>)
    requires Ranked(s, rank) && (id in s.entries ==> id in rank)
    ensures r.Err? <==> id !in s.entries
    ensures r.Err? ==> r.error == NoSuchElement
    ensures r.Ok? ==> r.value.id == id
  {
    if id in s.entries then Ok(Tree(s, rank, id)) else Err(NoSuchElement)
  }

  /** The constructor's loop: a node for each direct dependency whose id is
      an SBOM key. */
  function TopNodes(s: Sbom, ghost rank: map<string, nat>, deps: seq<ClassportInfo>): (ns: seq<Node>)
    requires Ranked(s, rank) && RanksDeps(s, rank, deps)
    ensures forall i :: 0 <= i < |ns| ==> ns[i].id in rank && ns[i] == Tree(s, rank, ns[i].id)
  {
    if deps == [] then []
    else
      var d := deps[|deps| - 1];
      RanksDepsPrefix(s, rank, deps, |deps| - 1);
      TopNodes(s, rank, deps[..|deps| - 1]) + (if d.id in s.entries then [Tree(s, rank, d.id)] else [])
  }

  /** The top nodes are exactly the direct dependencies that are SBOM keys,
      in values() order. */
  lemma {:induction false} TopNodesAreKeyedDeps(s: Sbom, rank: map<string, nat>, deps: seq<ClassportInfo>)
    requires Ranked(s, rank) && RanksDeps(s, rank, deps)
    ensures Ids(TopNodes(s, rank, deps)) == KeyedIds(s, deps)
  {
    if deps != [] {
      var init := deps[..|deps| - 1];
      var d := deps[|deps| - 1];
      RanksDepsPrefix(s, rank, deps, |deps| - 1);
      TopNodesAreKeyedDeps(s, rank, init);
      KeyedIdsSnoc(s, init, d);
      assert init + [d] == deps;
      TopNodesSnoc(s, rank, deps);
    }
  }

  /** One more direct dependency adds its id when it is a key. */
  lemma TopNodesSnoc(s: Sbom, rank: map<string, nat>, deps: seq<ClassportInfo>)
    requires deps != [] && Ranked(s, rank) && RanksDeps(s, rank, deps)
    ensures RanksDeps(s, rank, deps[..|deps| - 1])
    ensures var d := deps[|deps| - 1];
      Ids(TopNodes(s, rank, deps))
      == Ids(TopNodes(s, rank, deps[..|deps| - 1])) + (if d.id in s.entries then [d.id] else [])
  {
    var init := deps[..|deps| - 1];
    var d := deps[|deps| - 1];
    RanksDepsPrefix(s, rank, deps, |deps| - 1);
    var prev := TopNodes(s, rank, init);
    assert d in deps;
    var last: seq<Node> := if d.id in s.entries then [Tree(s, rank, d.id)] else [];
    assert TopNodes(s, rank, deps) == prev + last;
    IdsConcat(prev, last);
    assert Ids(last) == if d.id in s.entries then [d.id] else [];
  }

  lemma {:induction false} KeyedIdsSnoc(s: Sbom, deps: seq<ClassportInfo>, d: ClassportInfo)
    ensures KeyedIds(s, deps + [d]) == KeyedIds(s, deps) + (if d.id in s.entries then [d.id] else [])
  {
    if deps == [] {
      assert [] + [d] == [d];
    } else {
      assert (deps + [d])[1..] == deps[1..] + [d] && (deps + [d])[0] == deps[0];
      KeyedIdsSnoc(s, deps[1..], d);
      var head := if deps[0].id in s.entries then [deps[0].id] else [];
      Associative(head, KeyedIds(s, deps[1..]), if d.id in s.entries then [d.id] else []);
    }
  }

  /** The direct dependencies before `n` start from ranked keys too. */
  lemma RanksDepsPrefix(s: Sbom, rank: map<string, nat>, deps: seq<ClassportInfo>, n: nat)
    requires n <= |deps| && RanksDeps(s, rank, deps)
    ensures RanksDeps(s, rank, deps[..n])
  {
    forall d | d in deps[..n] && d.id in s.entries
      ensures d.id in rank
    {
      var i :| 0 <= i < n && deps[..n][i] == d;
      assert deps[i] == d;
    }
  }

  /** A cycle among keys that no direct dependency reaches does not stop
      the constructor: "b" and "c" name each other, only "a" is direct, and
      a rank on "a" alone meets the constructor's demand. */
  lemma UnreachableCycleIsAccepted()
    ensures
      var a := ClassportInfo("p", true, "a", "a", "g", "1", []);
      var b := ClassportInfo("p", false, "b", "b", "g", "1", ["c"]);
      var c := ClassportInfo("p", false, "c", "c", "g", "1", ["b"]);
      var s := Sbom(map["a" := a, "b" := b, "c" := c], ["a", "b", "c"]);
      var rank := map["a" := 0];
      s.Valid() && Ranked(s, rank) && RanksDeps(s, rank, DirectDeps(s.Values()))
  {
    var a := ClassportInfo("p", true, "a", "a", "g", "1", []);
    var b := ClassportInfo("p", false, "b", "b", "g", "1", ["c"]);
    var c := ClassportInfo("p", false, "c", "c", "g", "1", ["b"]);
    var s := Sbom(map["a" := a, "b" := b, "c" := c], ["a", "b", "c"]);
    assert s.Values() == [a, b, c];
    assert DirectDeps([c]) == [];
    assert DirectDeps([b, c]) == [];
    assert DirectDeps(s.Values()) == [a];
  }

  /** Every node of a tree carries an SBOM key. */
  ghost predicate AllKeys(s: Sbom, n: Node)
    decreases n
  {
    n.id in s.entries && forall i :: 0 <= i < |n.children| ==> AllKeys(s, n.children[i])
  }

  lemma {:induction false} TreeAllKeys(s: Sbom, rank: map<string, nat>, id: string)
    requires Ranked(s, rank) && id in rank
    ensures AllKeys(s, Tree(s, rank, id))
    decreases rank[id], 1
  {
    KidsAllKeys(s, rank, id, |s.entries[id].childIds|);
  }

  lemma {:induction false} KidsAllKeys(s: Sbom, rank: map<string, nat>, parent: string, k: nat)
    requires Ranked(s, rank) && parent in rank && k <= |s.entries[parent].childIds|
    ensures forall i :: 0 <= i < |Kids(s, rank, parent, k)| ==> AllKeys(s, Kids(s, rank, parent, k)[i])
    decreases rank[parent], 0, k
  {
    if k > 0 {
      KidsAllKeys(s, rank, parent, k - 1);
      var c := s.entries[parent].childIds[k - 1];
      if c in s.entries {
        assert c in rank;
        TreeAllKeys(s, rank, c);
      }
    }
  }

  class ClassportProject {
    var directDependencies: seq<Node>

    /** ClassportProject(sbom). */
    constructor (s: Sbom, ghost rank: map<string, nat>)
      requires s.Valid() && Ranked(s, rank) && RanksDeps(s, rank, DirectDeps(s.Values()))
      ensures directDependencies == TopNodes(s, rank, DirectDeps(s.Values()))
    {
      var top := BuildTopNodes(s, rank, DirectDeps(s.Values()));
      directDependencies := top;
    }

    /** The writer loop: each top node at level 1, only the final one last. */
    method WriteTree(out: TextWriter)
      modifies out
      ensures out.text == old(out.text) + ForestText(directDependencies)
    {
      var forest := directDependencies;
      WriteChildren(out, Node([], forest), 1);
    }
  }

  /** The constructor's loop over the direct dependencies. */
  method BuildTopNodes(s: Sbom, ghost rank: map<string, nat>, deps: seq<ClassportInfo>) returns (ns: seq<Node>)
    requires Ranked(s, rank) && RanksDeps(s, rank, deps)
    ensures ns == TopNodes(s, rank, deps)
  {
    ns := [];
    var i := 0;
    RanksDepsPrefix(s, rank, deps, 0);
    while i < |deps|
      invariant 0 <= i <= |deps|
      invariant RanksDeps(s, rank, deps[..i])
      invariant ns == TopNodes(s, rank, deps[..i])
    {
      assert deps[..i + 1][..i] == deps[..i] && deps[..i + 1][i] == deps[i];
      RanksDepsPrefix(s, rank, deps, i + 1);
      assert TopNodes(s, rank, deps[..i + 1])
             == ns + (if deps[i].id in s.entries then [Tree(s, rank, deps[i].id)] else []);
      if deps[i].id in s.entries {
        var n := NewSbomNode(s, rank, deps[i].id);
        ns := ns + [n.value];
      }
      i := i + 1;
    }
    assert deps[..i] == deps;
  }

  /** The SBOMNode constructor: look the id up, then buildGraph. */
  method NewSbomNode(s: Sbom, ghost rank: map<string, nat>, id: string) returns (r: Result<Node>)
    requires Ranked(s, rank) && (id in s.entries ==> id in rank)
    ensures r == NewNode(s, rank, id)
    decreases if id in rank then rank[id] else 0, 1
  {
    if id !in s.entries {
      return Err(NoSuchElement);
    }
    var childNodes := BuildGraph(s, rank, id);
    r := Ok(Node(id, childNodes));
  }

  /** buildGraph(): a node for each child id that is an SBOM key. */
  method BuildGraph(s: Sbom, ghost rank: map<string, nat>, parent: string) returns (childNodes: seq<Node>)
    requires Ranked(s, rank) && parent in rank
    ensures childNodes == Kids(s, rank, parent, |s.entries[parent].childIds|)
    decreases rank[parent], 0
  {
    var childIds := s.entries[parent].childIds;
    childNodes := [];
    var i := 0;
    while i < |childIds|
      invariant 0 <= i <= |childIds|
      invariant childNodes == Kids(s, rank, parent, i)
    {
      if childIds[i] in s.entries {
        var n := NewSbomNode(s, rank, childIds[i]);
        childNodes := childNodes + [n.value];
      }
      i := i + 1;
    }
  }
}
