/** ClassportProject of io.github.project.classport.commons: rebuilds the
    dependency tree from an SBOM, expanding each node once (memoised in
    `nodes`), guarding against cycles with the path of ids being expanded,
    falling back to another packaged version when an exact id is missing,
    and prints it with the "+- " / "\- " / "|  " glyphs. */
module ProjectCommons {
  import opened Wrappers
  import opened Records
  import opened JavaStrings
  import opened SbomTree

  const UNKNOWN_ROOT: string := "<Unknown>"
  const PARENT_ONLY: string := " (parent-only artefact)\n"

  // ---------------------------------------------------------------------
  // The memo and the path

  /** The `nodes` HashMap: the node built for each SBOM key, with the keys
      in the order they were put (standing for its keySet() order). */
  datatype Memo = Memo(nodes: map<string, Node>, order: seq<string>)
  {
    predicate Valid()
    {
      nodes.Keys == (set k | k in order)
    }
  }

  const EMPTY_MEMO: Memo := Memo(map[], [])

  /** nodes.put(k, n). */
  function Put(m: Memo, k: string, n: Node): (r: Memo)
    requires m.Valid()
    ensures r.Valid() && k in r.nodes && r.nodes[k] == n
  {
    if k in m.nodes then Memo(m.nodes[k := n], m.order) else Memo(m.nodes[k := n], m.order + [k])
  }

  /** m2 keeps every node of m under its key, and m's keys come first. */
  ghost predicate Extends(m: Memo, m2: Memo)
  {
    && |m.order| <= |m2.order| && m2.order[..|m.order|] == m.order
    && forall k :: k in m.nodes ==> k in m2.nodes && m2.nodes[k] == m.nodes[k]
  }

  /** No key added from m to m2 is on the path. */
  ghost predicate OffPath(m: Memo, m2: Memo, path: seq<string>)
  {
    forall k :: k in m2.nodes && k !in m.nodes ==> k !in path
  }

  lemma ExtendsTrans(a: Memo, b: Memo, c: Memo)
    requires Extends(a, b) && Extends(b, c)
    ensures Extends(a, c)
  {
    assert c.order[..|a.order|] == c.order[..|b.order|][..|a.order|];
  }

  /** Keys not yet on the path: what bounds the depth of the expansion. */
  function Unvisited(s: Sbom, path: seq<string>): set<string>
  {
    s.entries.Keys - (set k | k in path)
  }

  /** Pushing a key that is not yet on the path leaves one fewer unvisited. */
  lemma PushShrinks(s: Sbom, path: seq<string>, k: string)
    requires k in s.entries && k !in path
    ensures |Unvisited(s, path + [k])| < |Unvisited(s, path)|
  {
    assert Unvisited(s, path + [k]) == Unvisited(s, path) - {k};
  }

  // ---------------------------------------------------------------------
  // Resolving a child id

  /** childId.substring(0, childId.lastIndexOf(":")): the id without the
      text after its last ':'; with no ':' at all, substring(0, -1) throws. */
  function StripVersion(childId: string): (r: Result<string>)
    ensures r.Err? <==> forall j :: 0 <= j < |childId| ==> childId[j] != ':'
    ensures r.Err? ==> r.error == StringIndexOutOfBounds
    ensures r.Ok? ==> var p := r.value;
      && |p| < |childId| && childId[..|p|] == p && childId[|p|] == ':'
      && forall j :: |p| < j < |childId| ==> childId[j] != ':'
  {
    var colon := LastIndexOf(childId, ':');
    if colon < 0 then Err(StringIndexOutOfBounds) else Ok(childId[..colon])
  }

  /** The first key (in iteration order) containing sub, or -1. */
  function FirstContaining(ks: seq<string>, sub: string): (r: int)
    ensures -1 <= r < |ks|
    ensures r >= 0 ==> Contains(ks[r], sub) && forall j :: 0 <= j < r ==> !Contains(ks[j], sub)
    ensures r == -1 ==> forall j :: 0 <= j < |ks| ==> !Contains(ks[j], sub)
  {
    if ks == [] then -1
    else if Contains(ks[0], sub) then 0
    else
      var r := FirstContaining(ks[1..], sub);
      if r < 0 then -1 else r + 1
  }

  /** The last key (in iteration order) containing sub, or -1. */
  function LastContaining(ks: seq<string>, sub: string): (r: int)
    ensures -1 <= r < |ks|
    ensures r >= 0 ==> Contains(ks[r], sub) && forall j :: r < j < |ks| ==> !Contains(ks[j], sub)
    ensures r == -1 ==> forall j :: 0 <= j < |ks| ==> !Contains(ks[j], sub)
  {
    if ks == [] then -1
    else if Contains(ks[|ks| - 1], sub) then |ks| - 1
    else LastContaining(ks[..|ks| - 1], sub)
  }

  /** newNodeId: the child id itself when it is a key, else the last key
      containing the id without its version, else the empty string. */
  function Candidate(s: Sbom, childId: string, stripped: string): (r: string)
    requires s.Valid()
    ensures r != [] ==> r in s.entries
    ensures childId in s.entries ==> r == childId
    ensures childId !in s.entries && r != [] ==>
              Contains(r, stripped)
              && exists j :: 0 <= j < |s.keys| && s.keys[j] == r
                             && forall j' :: j < j' < |s.keys| ==> !Contains(s.keys[j'], stripped)
    ensures childId !in s.entries && (forall j :: 0 <= j < |s.keys| ==> !Contains(s.keys[j], stripped)) ==> r == []
    ensures childId !in s.entries && (exists j :: 0 <= j < |s.keys| && Contains(s.keys[j], stripped)) ==>
              0 <= LastContaining(s.keys, stripped) && r == s.keys[LastContaining(s.keys, stripped)]
  {
    if childId in s.entries then childId
    else
      var j := LastContaining(s.keys, stripped);
      if j >= 0 then s.keys[j] else []
  }

  /** buildGraph(path) over a list of child ids: the child nodes, in order,
      and the memo after them. */
  function Children(s: Sbom, memo: Memo, path: seq<string>, ids: seq<string>): (r: Result<(seq<Node>, Memo)>)
    requires s.Valid() && memo.Valid()
    ensures r.Ok? ==> r.value.1.Valid() && Extends(memo, r.value.1) && OffPath(memo, r.value.1, path)
    ensures r.Ok? ==> |r.value.0| <= |ids|
    decreases |Unvisited(s, path)|, 1, |ids|
  {
    if ids == [] then Ok(([], memo))
    else
      var first :- Resolve(s, memo, path, ids[0]);
      var rest :- Children(s, first.1, path, ids[1..]);
      ExtendsTrans(memo, first.1, rest.1);
      Ok((first.0 + rest.0, rest.1))
  }

  /** One iteration of buildGraph's loop: reuse a memoised node (same id,
      or another version of it), else expand the candidate unless it is
      already on the path; nothing when there is no candidate. */
  function Resolve(s: Sbom, memo: Memo, path: seq<string>, childId: string): (r: Result<(seq<Node>, Memo)>)
    requires s.Valid() && memo.Valid()
    ensures r.Ok? ==> r.value.1.Valid() && Extends(memo, r.value.1) && OffPath(memo, r.value.1, path)
    ensures r.Ok? ==> |r.value.0| <= 1
    decreases |Unvisited(s, path)|, 0, 1
  {
    if childId in memo.nodes then Ok(([memo.nodes[childId]], memo))
    else
      var stripped :- StripVersion(childId);
      var m := FirstContaining(memo.order, stripped);
      if m >= 0 then Ok(([memo.nodes[memo.order[m]]], memo))
      else
        var newNodeId := Candidate(s, childId, stripped);
        if newNodeId == [] || newNodeId in path then Ok(([], memo))
        else
          assert OccursAt(childId, stripped, 0);
          Expand(s, memo, path, newNodeId)
  }

  /** A node not met before and not on the path: push its id, build its
      children, pop, and memoise it. */
  function Expand(s: Sbom, memo: Memo, path: seq<string>, newNodeId: string): (r: Result<(seq<Node>, Memo)>)
    requires s.Valid() && memo.Valid()
    requires newNodeId in s.entries && newNodeId !in path && newNodeId !in memo.nodes
    ensures r.Ok? ==> r.value.1.Valid() && Extends(memo, r.value.1) && OffPath(memo, r.value.1, path)
    ensures r.Ok? ==> |r.value.0| == 1 && r.value.0[0].id == s.entries[newNodeId].id
    ensures r.Ok? ==> newNodeId in r.value.1.nodes && r.value.1.nodes[newNodeId] == r.value.0[0]
    decreases |Unvisited(s, path)|, 0, 0
  {
    PushShrinks(s, path, newNodeId);
    var meta := s.entries[newNodeId];
    var built :- Children(s, memo, path + [newNodeId], meta.childIds);
    var n := Node(meta.id, built.0);
    var after := Put(built.1, newNodeId, n);
    ExtendsTrans(memo, built.1, after);
    Ok(([n], after))
  }

  /** Every node of the tree is printed under the id of some SBOM record. */
  ghost predicate FromSbom(s: Sbom, n: Node)
    decreases n
  {
    && (exists k :: k in s.entries && s.entries[k].id == n.id)
    && forall i :: 0 <= i < |n.children| ==> FromSbom(s, n.children[i])
  }

  ghost predicate MemoFromSbom(s: Sbom, m: Memo)
  {
    forall k :: k in m.nodes ==> FromSbom(s, m.nodes[k])
  }

  /** The expansion only ever builds nodes for SBOM records, whatever the
      version fallbacks and memo hits it takes. */
  lemma {:induction false} ChildrenFromSbom(s: Sbom, memo: Memo, path: seq<string>, ids: seq<string>)
    requires s.Valid() && memo.Valid() && MemoFromSbom(s, memo)
    requires Children(s, memo, path, ids).Ok?
    ensures var r := Children(s, memo, path, ids).value;
      MemoFromSbom(s, r.1) && forall i :: 0 <= i < |r.0| ==> FromSbom(s, r.0[i])
    decreases |Unvisited(s, path)|, 1, |ids|
  {
    if ids != [] {
      ResolveFromSbom(s, memo, path, ids[0]);
      var first := Resolve(s, memo, path, ids[0]).value;
      ChildrenFromSbom(s, first.1, path, ids[1..]);
      var rest := Children(s, first.1, path, ids[1..]).value;
      assert Children(s, memo, path, ids).value == (first.0 + rest.0, rest.1);
    }
  }

  lemma {:induction false} ResolveFromSbom(s: Sbom, memo: Memo, path: seq<string>, childId: string)
    requires s.Valid() && memo.Valid() && MemoFromSbom(s, memo)
    requires Resolve(s, memo, path, childId).Ok?
    ensures var r := Resolve(s, memo, path, childId).value;
      MemoFromSbom(s, r.1) && forall i :: 0 <= i < |r.0| ==> FromSbom(s, r.0[i])
    decreases |Unvisited(s, path)|, 0, 1
  {
    if childId !in memo.nodes {
      var stripped := StripVersion(childId).value;
      var m := FirstContaining(memo.order, stripped);
      if m < 0 {
        var newNodeId := Candidate(s, childId, stripped);
        if newNodeId != [] && newNodeId !in path {
          assert OccursAt(childId, stripped, 0);
          ExpandFromSbom(s, memo, path, newNodeId);
        }
      }
    }
  }

  lemma {:induction false} ExpandFromSbom(s: Sbom, memo: Memo, path: seq<string>, newNodeId: string)
    requires s.Valid() && memo.Valid() && MemoFromSbom(s, memo)
    requires newNodeId in s.entries && newNodeId !in path && newNodeId !in memo.nodes
    requires Expand(s, memo, path, newNodeId).Ok?
    ensures var r := Expand(s, memo, path, newNodeId).value;
      MemoFromSbom(s, r.1) && forall i :: 0 <= i < |r.0| ==> FromSbom(s, r.0[i])
    decreases |Unvisited(s, path)|, 0, 0
  {
    PushShrinks(s, path, newNodeId);
    var meta := s.entries[newNodeId];
    ChildrenFromSbom(s, memo, path + [newNodeId], meta.childIds);
    var built := Children(s, memo, path + [newNodeId], meta.childIds).value;
    var n := Node(meta.id, built.0);
    assert s.entries[newNodeId].id == n.id;
    assert FromSbom(s, n);
    PutFromSbom(s, built.1, newNodeId, n);
  }

  lemma PutFromSbom(s: Sbom, m: Memo, k: string, n: Node)
    requires m.Valid() && MemoFromSbom(s, m) && FromSbom(s, n)
    ensures MemoFromSbom(s, Put(m, k, n))
  {
    assert Put(m, k, n).nodes == m.nodes[k := n];
  }

  /** An id already memoised gets the very node built for it, and the memo
      stays as it is: nothing is expanded again. */
  lemma MemoHitReusesNode(s: Sbom, memo: Memo, path: seq<string>, childId: string)
    requires s.Valid() && memo.Valid() && childId in memo.nodes
    ensures Resolve(s, memo, path, childId) == Ok(([memo.nodes[childId]], memo))
  {
  }

  /** A child id that is not memoised and has no ':' makes the whole
      construction fail with StringIndexOutOfBoundsException. */
  lemma MissingColonThrows(s: Sbom, memo: Memo, path: seq<string>, ids: seq<string>, k: nat)
    requires s.Valid() && memo.Valid()
    requires k < |ids| && ids[k] !in memo.nodes && forall j :: 0 <= j < |ids[k]| ==> ids[k][j] != ':'
    requires forall j :: 0 <= j < k ==> ids[j] in memo.nodes
    ensures Children(s, memo, path, ids) == Err(StringIndexOutOfBounds)
    decreases k
  {
    if k > 0 {
      assert ids[1..][k - 1] == ids[k];
      MissingColonThrows(s, memo, path, ids[1..], k - 1);
    }
  }

  // ---------------------------------------------------------------------
  // The constructor

  /** The fields the constructor sets. */
  datatype Project = Project(projectRootId: Option<string>, projectRoot: Option<Node>, directDependencies: seq<Node>)

  /** The first record (in values() order) whose id is its own source project's. */
  function FirstRoot(vs: seq<ClassportInfo>): (r: int)
    ensures -1 <= r < |vs|
    ensures r >= 0 ==> vs[r].id == vs[r].sourceProjectId && forall j :: 0 <= j < r ==> vs[j].id != vs[j].sourceProjectId
    ensures r == -1 ==> forall j :: 0 <= j < |vs| ==> vs[j].id != vs[j].sourceProjectId
  {
    if vs == [] then -1
    else if vs[0].id == vs[0].sourceProjectId then 0
    else
      var r := FirstRoot(vs[1..]);
      if r < 0 then -1 else r + 1
  }

  /** The direct-dependency loop: each dependency names the project root id;
      those that are SBOM keys become top nodes, expanded with a fresh path
      and the shared memo. */
  function DirectFrom(s: Sbom, deps: seq<ClassportInfo>, memo: Memo, rootId: Option<string>)
    : (r: Result<(Option<string>, seq<Node>, Memo)>)
    requires s.Valid() && memo.Valid()
    ensures r.Ok? ==> r.value.2.Valid()
  {
    if deps == [] then Ok((rootId, [], memo))
    else
      var dep := deps[0];
      if dep.id in s.entries then
        var built :- Children(s, memo, [], dep.childIds);
        var rest :- DirectFrom(s, deps[1..], built.1, Some(dep.sourceProjectId));
        Ok((rest.0, [Node(dep.id, built.0)] + rest.1, rest.2))
      else DirectFrom(s, deps[1..], memo, Some(dep.sourceProjectId))
  }

  /** ClassportProject(sbom): the fields it sets and the memo it leaves. An
      empty SBOM never fails; a root, when found, is a record that is its
      own source project, and then no forest is built. */
  function BuildProject(s: Sbom): (r: Result<(Project, Memo)>)
    requires s.Valid()
    ensures s.keys == [] ==> r.Ok?
    ensures r.Ok? ==> r.value.1.Valid()
    ensures r.Ok? && r.value.0.projectRoot.Some? ==>
              && r.value.0.projectRootId.None? && r.value.0.directDependencies == []
              && exists k :: k in s.entries && s.entries[k].id == r.value.0.projectRoot.value.id == s.entries[k].sourceProjectId
  {
    if s.keys == [] then Ok((Project(Some(UNKNOWN_ROOT), None, []), EMPTY_MEMO))
    else
      var vs := s.Values();
      var ri := FirstRoot(vs);
      if ri >= 0 then
        assert s.keys[ri] in s.entries && s.entries[s.keys[ri]] == vs[ri];
        var built :- Children(s, EMPTY_MEMO, [], vs[ri].childIds);
        Ok((Project(None, Some(Node(vs[ri].id, built.0)), []), built.1))
      else
        var d :- DirectFrom(s, DirectDeps(vs), EMPTY_MEMO, None);
        Ok((Project(d.0, None, d.1), d.2))
  }

  /** Every direct-dependency node is built for a record of the SBOM. */
  lemma {:induction false} DirectFromSbom(s: Sbom, deps: seq<ClassportInfo>, memo: Memo, rootId: Option<string>)
    requires s.Valid() && memo.Valid() && MemoFromSbom(s, memo)
    requires forall d :: d in deps ==> exists k :: k in s.entries && s.entries[k] == d
    requires DirectFrom(s, deps, memo, rootId).Ok?
    ensures var r := DirectFrom(s, deps, memo, rootId).value;
      MemoFromSbom(s, r.2) && forall i :: 0 <= i < |r.1| ==> FromSbom(s, r.1[i])
  {
    if deps != [] {
      var dep := deps[0];
      assert dep in deps;
      assert forall d :: d in deps[1..] ==> d in deps;
      if dep.id in s.entries {
        ChildrenFromSbom(s, memo, [], dep.childIds);
        var built := Children(s, memo, [], dep.childIds).value;
        var k :| k in s.entries && s.entries[k] == dep;
        assert FromSbom(s, Node(dep.id, built.0));
        DirectFromSbom(s, deps[1..], built.1, Some(dep.sourceProjectId));
      } else {
        DirectFromSbom(s, deps[1..], memo, Some(dep.sourceProjectId));
      }
    }
  }

  /** Whatever the SBOM, every node of the tree the constructor builds
      (the root's, or each direct dependency's) carries the id of one of
      the SBOM's records. */
  lemma ProjectFromSbom(s: Sbom)
    requires s.Valid() && BuildProject(s).Ok?
    ensures var p := BuildProject(s).value.0;
      && (p.projectRoot.Some? ==> FromSbom(s, p.projectRoot.value))
      && forall i :: 0 <= i < |p.directDependencies| ==> FromSbom(s, p.directDependencies[i])
  {
    if s.keys != [] {
      var vs := s.Values();
      var ri := FirstRoot(vs);
      if ri >= 0 {
        ChildrenFromSbom(s, EMPTY_MEMO, [], vs[ri].childIds);
        assert s.entries[s.keys[ri]].id == vs[ri].id;
      } else {
        forall d | d in DirectDeps(vs)
          ensures exists k :: k in s.entries && s.entries[k] == d
        {
          var i :| 0 <= i < |vs| && vs[i] == d;
          assert s.entries[s.keys[i]] == d;
        }
        DirectFromSbom(s, DirectDeps(vs), EMPTY_MEMO, None);
      }
    }
  }

  /** Without a root, the top nodes are exactly the direct dependencies that
      are SBOM keys, in order, and the root id is the source project of the
      last direct dependency (null when there is none). */
  lemma {:induction false} ForestIsKeyedDirectDeps(s: Sbom, deps: seq<ClassportInfo>, memo: Memo, rootId: Option<string>)
    requires s.Valid() && memo.Valid()
    requires DirectFrom(s, deps, memo, rootId).Ok?
    ensures var d := DirectFrom(s, deps, memo, rootId).value;
      && Ids(d.1) == KeyedIds(s, deps)
      && d.0 == (if deps == [] then rootId else Some(deps[|deps| - 1].sourceProjectId))
  {
    if deps != [] {
      var dep := deps[0];
      if dep.id in s.entries {
        var built := Children(s, memo, [], dep.childIds).value;
        ForestIsKeyedDirectDeps(s, deps[1..], built.1, Some(dep.sourceProjectId));
        var rest := DirectFrom(s, deps[1..], built.1, Some(dep.sourceProjectId)).value;
        var top := Node(dep.id, built.0);
        IdsConcat([top], rest.1);
        assert Ids([top]) == [dep.id];
        assert DirectFrom(s, deps, memo, rootId).value.1 == [top] + rest.1;
      } else {
        ForestIsKeyedDirectDeps(s, deps[1..], memo, Some(dep.sourceProjectId));
      }
      if |deps| > 1 {
        assert deps[1..][|deps[1..]| - 1] == deps[|deps| - 1];
      }
    }
  }

  // ---------------------------------------------------------------------
  // writeTree

  /** Java's rendering of a possibly null String in a concatenation. */
  function JavaText(s: Option<string>): string
  {
    if s.Some? then s.value else "null"
  }

  /** writeTree(out): the root's tree from level 0; without a root, the
      parent-only line and then each top node at level 1, only the final
      one marked last. */
  function TreeText(p: Project): (r: string)
    ensures |r| > 0 && r[|r| - 1] == '\n'
  {
    if p.projectRoot.Some? then
      RenderShape(p.projectRoot.value, 0, true);
      Render(p.projectRoot.value, 0, true)
    else
      var forest := ForestText(p.directDependencies);
      ForestTextShape(p.directDependencies);
      var head := JavaText(p.projectRootId) + PARENT_ONLY;
      assert head[|head| - 1] == '\n';
      assert forest != [] ==> (head + forest)[|head + forest| - 1] == forest[|forest| - 1];
      head + forest
  }

  /** An empty SBOM yields the unknown root and nothing else, and prints
      the single line "<Unknown> (parent-only artefact)". */
  lemma EmptySbomTree(s: Sbom)
    requires s.Valid() && s.keys == []
    ensures var r := BuildProject(s);
      && r == Ok((Project(Some(UNKNOWN_ROOT), None, []), EMPTY_MEMO))
      && TreeText(r.value.0) == UNKNOWN_ROOT + PARENT_ONLY
  {
    var p := Project(Some(UNKNOWN_ROOT), None, []);
    assert BuildProject(s) == Ok((p, EMPTY_MEMO));
    assert ForestText([]) == [];
    assert TreeText(p) == UNKNOWN_ROOT + PARENT_ONLY + [];
  }

  // ---------------------------------------------------------------------
  // The class

  class ClassportProject {
    const sbom: Sbom
    var projectRootId: Option<string>
    var projectRoot: Option<Node>
    var directDependencies: seq<Node>
    /** The memo: nodes by key, and their keys in insertion order. */
    var nodes: map<string, Node>
    var nodeOrder: seq<string>
    /** The Stack<String> that buildGraph() creates and hands down. */
    var path: seq<string>

    function State(): Project
      reads this
    {
      Project(projectRootId, projectRoot, directDependencies)
    }

    function CurrentMemo(): Memo
      reads this
    {
      Memo(nodes, nodeOrder)
    }

    /** The field initialisers and `this.sbom = sbom; this.nodes = new HashMap<>()`. */
    constructor Init(sbom: Sbom)
      ensures this.sbom == sbom && CurrentMemo() == EMPTY_MEMO && path == []
      ensures State() == Project(None, None, [])
    {
      this.sbom := sbom;
      projectRootId, projectRoot, directDependencies := None, None, [];
      nodes, nodeOrder, path := map[], [], [];
    }

    /** The loop over nodes.keySet() looking for another version of the child. */
    static method FindMemoised(order: seq<string>, stripped: string) returns (m: int)
      ensures m == FirstContaining(order, stripped)
    {
      m := 0;
      while m < |order|
        invariant 0 <= m <= |order|
        invariant forall j :: 0 <= j < m ==> !Contains(order[j], stripped)
      {
        if Contains(order[m], stripped) {
          return;
        }
        m := m + 1;
      }
      m := -1;
    }

    /** The loop over sbom.keySet() that keeps the last key containing the child. */
    static method FindPackaged(keys: seq<string>, stripped: string) returns (j: int)
      ensures j == LastContaining(keys, stripped)
    {
      j := -1;
      var i := 0;
      while i < |keys|
        invariant 0 <= i <= |keys|
        invariant j == LastContaining(keys[..i], stripped)
      {
        if Contains(keys[i], stripped) {
          j := i;
        }
        i := i + 1;
        assert keys[..i][..i - 1] == keys[..i - 1];
      }
      assert keys[..i] == keys;
    }

    /** buildGraph(path) for a node with record `meta`: its child nodes. The
        path is restored when it returns normally. */
    method BuildGraph(meta: ClassportInfo) returns (r: Result<seq<Node>>)
      requires sbom.Valid() && CurrentMemo().Valid()
      modifies this
      ensures State() == old(State())
      ensures var spec := Children(sbom, old(CurrentMemo()), old(path), meta.childIds);
        && (r.Ok? <==> spec.Ok?)
        && (r.Ok? ==> r.value == spec.value.0 && CurrentMemo() == spec.value.1 && path == old(path))
      decreases |Unvisited(sbom, path)|, 2
    {
      ghost var memo0, state0, path0 := CurrentMemo(), State(), path;
      var ids := meta.childIds;
      var childNodes: seq<Node> := [];
      var i := 0;
      BuildStart(sbom, memo0, path0, ids);
      while i < |ids|
        invariant i <= |ids|
        invariant State() == state0 && path == path0
        invariant CurrentMemo().Valid()
        invariant BuildProgress(sbom, memo0, path0, ids, i, childNodes, CurrentMemo())
      {
        ghost var memo := CurrentMemo();
        var found: seq<Node>;
        r, found := ResolveChild(ids[i]);
        if r.Err? {
          ChildrenFails(sbom, memo0, path0, ids, i, childNodes, memo);
          return;
        }
        ChildrenStep(sbom, memo0, path0, ids, i, childNodes, memo, found, CurrentMemo());
        childNodes := childNodes + found;
        i := i + 1;
      }
      assert ids[i..] == [];
      r := Ok(childNodes);
    }

    /** The body of buildGraph's loop for one child id. */
    method ResolveChild(childId: string) returns (r: Result<seq<Node>>, found: seq<Node>)
      requires sbom.Valid() && CurrentMemo().Valid()
      modifies this
      ensures State() == old(State())
      ensures var spec := Resolve(sbom, old(CurrentMemo()), old(path), childId);
        && (r.Ok? <==> spec.Ok?)
        && (r.Ok? ==> found == spec.value.0 && CurrentMemo() == spec.value.1 && path == old(path))
      decreases |Unvisited(sbom, path)|, 1
    {
      r, found := Ok([]), [];
      if childId in nodes {
        found := [nodes[childId]];
        return;
      }
      var colon := LastIndexOf(childId, ':');
      if colon < 0 {
        r := Err(StringIndexOutOfBounds);
        return;
      }
      var stripped := childId[..colon];
      assert StripVersion(childId) == Ok(stripped);
      var m := FindMemoised(nodeOrder, stripped);
      if m >= 0 {
        found := [nodes[nodeOrder[m]]];
        return;
      }
      var newNodeId: string := [];
      if childId in sbom.entries {
        newNodeId := childId;
      } else {
        var j := FindPackaged(sbom.keys, stripped);
        if j >= 0 {
          newNodeId := sbom.keys[j];
        }
      }
      assert newNodeId == Candidate(sbom, childId, stripped);
      if newNodeId != [] && newNodeId !in path {
        assert OccursAt(childId, stripped, 0);
        r, found := ExpandNode(newNodeId);
      }
    }

    /** A new node for a key met for the first time off the path: push,
        recurse, pop, then add it to the memo. */
    method ExpandNode(newNodeId: string) returns (r: Result<seq<Node>>, found: seq<Node>)
      requires sbom.Valid() && CurrentMemo().Valid()
      requires newNodeId in sbom.entries && newNodeId !in path && newNodeId !in nodes
      modifies this
      ensures State() == old(State())
      ensures var spec := Expand(sbom, old(CurrentMemo()), old(path), newNodeId);
        && (r.Ok? <==> spec.Ok?)
        && (r.Ok? ==> found == spec.value.0 && CurrentMemo() == spec.value.1 && path == old(path))
      decreases |Unvisited(sbom, path)|, 0
    {
      var child := sbom.entries[newNodeId];
      PushShrinks(sbom, path, newNodeId);
      Push(newNodeId);
      var built := BuildGraph(child);
      if built.Err? {
        return Err(built.error), [];
      }
      Pop();
      var n := Node(child.id, built.value);
      Memoise(newNodeId, n);
      r, found := Ok([n]), [n];
    }

    /** path.push(k). */
    method Push(k: string)
      modifies this
      ensures path == old(path) + [k]
      ensures State() == old(State()) && CurrentMemo() == old(CurrentMemo())
    {
      path := path + [k];
    }

    /** path.pop(). */
    method Pop()
      requires path != []
      modifies this
      ensures path == old(path)[..|old(path)| - 1]
      ensures State() == old(State()) && CurrentMemo() == old(CurrentMemo())
    {
      path := path[..|path| - 1];
    }

    /** nodes.put(k, n). */
    method Memoise(k: string, n: Node)
      requires CurrentMemo().Valid()
      modifies this
      ensures CurrentMemo() == Put(old(CurrentMemo()), k, n)
      ensures State() == old(State()) && path == old(path)
    {
      if k !in nodes {
        nodeOrder := nodeOrder + [k];
      }
      nodes := nodes[k := n];
    }

    /** The constructor's body (after Init): root or forest selection, then
        the expansion. */
    static method Create(sbom: Sbom) returns (r: Result<ClassportProject>)
      requires sbom.Valid()
      ensures r.Ok? <==> BuildProject(sbom).Ok?
      ensures r.Ok? ==> fresh(r.value) && r.value.sbom == sbom
                        && r.value.State() == BuildProject(sbom).value.0
                        && r.value.CurrentMemo() == BuildProject(sbom).value.1
    {
      var p := new ClassportProject.Init(sbom);
      if sbom.keys == [] {
        p.projectRootId := Some(UNKNOWN_ROOT);
        return Ok(p);
      }
      var vs := sbom.Values();
      var ri := FindRoot(vs);
      if ri >= 0 {
        var built := p.BuildGraph(vs[ri]);
        if built.Err? {
          return Err(built.error);
        }
        p.projectRoot := Some(Node(vs[ri].id, built.value));
        return Ok(p);
      }
      var deps := DirectDeps(vs);
      var ok := p.BuildDirect(deps);
      if ok.Err? {
        return Err(ok.error);
      }
      r := Ok(p);
    }

    /** sbom.values().stream().filter(dep -> dep.id() == dep.sourceProjectId()).findFirst(). */
    static method FindRoot(vs: seq<ClassportInfo>) returns (ri: int)
      ensures ri == FirstRoot(vs)
    {
      ri := 0;
      while ri < |vs|
        invariant 0 <= ri <= |vs|
        invariant forall j :: 0 <= j < ri ==> vs[j].id != vs[j].sourceProjectId
      {
        if vs[ri].id == vs[ri].sourceProjectId {
          return;
        }
        ri := ri + 1;
      }
      ri := -1;
    }

    /** The loop over the direct dependencies. */
    method BuildDirect(deps: seq<ClassportInfo>) returns (r: Result<()>)
      requires sbom.Valid() && CurrentMemo().Valid() && path == []
      requires projectRoot == None && directDependencies == [] && projectRootId == None
      modifies this
      ensures var spec := DirectFrom(sbom, deps, old(CurrentMemo()), None);
        && (r.Ok? <==> spec.Ok?)
        && (r.Ok? ==> State() == Project(spec.value.0, None, spec.value.1) && CurrentMemo() == spec.value.2)
    {
      ghost var memo0 := CurrentMemo();
      DirectStart(sbom, memo0, deps);
      var i := 0;
      while i < |deps|
        invariant i <= |deps| && path == [] && projectRoot == None
        invariant CurrentMemo().Valid()
        invariant DirectProgress(sbom, memo0, deps, i, projectRootId, directDependencies, CurrentMemo())
      {
        ghost var memo := CurrentMemo();
        ghost var rootId := projectRootId;
        var dep := deps[i];
        projectRootId := Some(dep.sourceProjectId);
        if dep.id in sbom.entries {
          var built := BuildGraph(dep);
          if built.Err? {
            DirectFails(sbom, memo0, deps, i, rootId, directDependencies, memo);
            return Err(built.error);
          }
          DirectStepKey(sbom, memo0, deps, i, rootId, directDependencies, memo, built.value, CurrentMemo());
          directDependencies := directDependencies + [Node(dep.id, built.value)];
        } else {
          DirectStepOther(sbom, memo0, deps, i, rootId, directDependencies, memo);
        }
        i := i + 1;
      }
      assert deps[i..] == [];
      r := Ok(());
    }

    /** writeTree(out). */
    method WriteTree(out: TextWriter)
      modifies out
      ensures out.text == old(out.text) + TreeText(State())
    {
      ghost var text0 := out.text;
      var root, rootId, forest := projectRoot, projectRootId, directDependencies;
      ghost var p := Project(rootId, root, forest);
      if root.Some? {
        WriteNode(out, root.value, 0, true);
        assert TreeText(p) == Render(root.value, 0, true);
      } else {
        out.Write(JavaText(rootId) + PARENT_ONLY);
        ghost var text1 := out.text;
        // The direct dependencies at level 1, as the children of a nameless
        // node at level 0 are written.
        WriteChildren(out, Node([], forest), 1);
        assert out.text == text1 + ForestText(forest);
        assert TreeText(p) == JavaText(rootId) + PARENT_ONLY + ForestText(forest);
      }
      assert p == State();
    }
  }

  // ---------------------------------------------------------------------
  // Loop bookkeeping for BuildGraph and BuildDirect

  /** buildGraph's loop has handled ids[..i], giving `done` and memo m, and
      the whole list's result is `done` followed by the rest's. */
  ghost predicate BuildProgress(s: Sbom, m0: Memo, path: seq<string>, ids: seq<string>, i: nat, done: seq<Node>, m: Memo)
  {
    && i <= |ids| && s.Valid() && m0.Valid() && m.Valid()
    && (Children(s, m0, path, ids).Ok? <==> Children(s, m, path, ids[i..]).Ok?)
    && (Children(s, m, path, ids[i..]).Ok? ==>
          Children(s, m0, path, ids).value
          == (done + Children(s, m, path, ids[i..]).value.0, Children(s, m, path, ids[i..]).value.1))
  }

  lemma BuildStart(s: Sbom, m0: Memo, path: seq<string>, ids: seq<string>)
    requires s.Valid() && m0.Valid()
    ensures BuildProgress(s, m0, path, ids, 0, [], m0)
  {
    assert ids[0..] == ids;
    if Children(s, m0, path, ids).Ok? {
      assert [] + Children(s, m0, path, ids).value.0 == Children(s, m0, path, ids).value.0;
    }
  }

  lemma ChildrenStep(s: Sbom, m0: Memo, path: seq<string>, ids: seq<string>, i: nat, done: seq<Node>, m: Memo,
                     found: seq<Node>, m': Memo)
    requires BuildProgress(s, m0, path, ids, i, done, m) && i < |ids|
    requires Resolve(s, m, path, ids[i]) == Ok((found, m'))
    ensures m'.Valid() && BuildProgress(s, m0, path, ids, i + 1, done + found, m')
  {
    assert ids[i..][1..] == ids[i + 1..];
    if Children(s, m', path, ids[i + 1..]).Ok? {
      var rest := Children(s, m', path, ids[i + 1..]).value;
      assert done + (found + rest.0) == (done + found) + rest.0;
    }
  }

  lemma ChildrenFails(s: Sbom, m0: Memo, path: seq<string>, ids: seq<string>, i: nat, done: seq<Node>, m: Memo)
    requires BuildProgress(s, m0, path, ids, i, done, m) && i < |ids|
    requires Resolve(s, m, path, ids[i]).Err?
    ensures Children(s, m0, path, ids).Err?
  {
  }

  /** The direct-dependency loop has handled deps[..i]. */
  ghost predicate DirectProgress(s: Sbom, m0: Memo, deps: seq<ClassportInfo>, i: nat,
                                 rootId: Option<string>, done: seq<Node>, m: Memo)
  {
    && i <= |deps| && s.Valid() && m0.Valid() && m.Valid()
    && (DirectFrom(s, deps, m0, None).Ok? <==> DirectFrom(s, deps[i..], m, rootId).Ok?)
    && (DirectFrom(s, deps[i..], m, rootId).Ok? ==>
          var rest := DirectFrom(s, deps[i..], m, rootId).value;
          DirectFrom(s, deps, m0, None).value == (rest.0, done + rest.1, rest.2))
  }

  lemma DirectStart(s: Sbom, m0: Memo, deps: seq<ClassportInfo>)
    requires s.Valid() && m0.Valid()
    ensures DirectProgress(s, m0, deps, 0, None, [], m0)
  {
    assert deps[0..] == deps;
    if DirectFrom(s, deps, m0, None).Ok? {
      assert [] + DirectFrom(s, deps, m0, None).value.1 == DirectFrom(s, deps, m0, None).value.1;
    }
  }

  lemma DirectStepKey(s: Sbom, m0: Memo, deps: seq<ClassportInfo>, i: nat, rootId: Option<string>,
                      done: seq<Node>, m: Memo, built: seq<Node>, m': Memo)
    requires DirectProgress(s, m0, deps, i, rootId, done, m) && i < |deps| && deps[i].id in s.entries
    requires Children(s, m, [], deps[i].childIds) == Ok((built, m'))
    ensures m'.Valid()
    ensures DirectProgress(s, m0, deps, i + 1, Some(deps[i].sourceProjectId), done + [Node(deps[i].id, built)], m')
  {
    assert deps[i..][1..] == deps[i + 1..];
    var n := Node(deps[i].id, built);
    if DirectFrom(s, deps[i + 1..], m', Some(deps[i].sourceProjectId)).Ok? {
      var rest := DirectFrom(s, deps[i + 1..], m', Some(deps[i].sourceProjectId)).value;
      assert done + ([n] + rest.1) == (done + [n]) + rest.1;
    }
  }

  lemma DirectStepOther(s: Sbom, m0: Memo, deps: seq<ClassportInfo>, i: nat, rootId: Option<string>,
                        done: seq<Node>, m: Memo)
    requires DirectProgress(s, m0, deps, i, rootId, done, m) && i < |deps| && deps[i].id !in s.entries
    ensures DirectProgress(s, m0, deps, i + 1, Some(deps[i].sourceProjectId), done, m)
  {
    assert deps[i..][1..] == deps[i + 1..];
  }

  lemma DirectFails(s: Sbom, m0: Memo, deps: seq<ClassportInfo>, i: nat, rootId: Option<string>,
                    done: seq<Node>, m: Memo)
    requires DirectProgress(s, m0, deps, i, rootId, done, m) && i < |deps| && deps[i].id in s.entries
    requires Children(s, m, [], deps[i].childIds).Err?
    ensures DirectFrom(s, deps, m0, None).Err?
  {
  }
}
