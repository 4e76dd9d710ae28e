/** EmbeddingMojo of tld.domain.me.classport.plugin: walks the collected
    dependency graph from the project's root node and, for every child
    before its own children, embeds five metadata pairs in the child's jar. */
module TldPluginMojo {
  import opened Wrappers
  import opened SeqFacts
  import opened Coordinates
  import TldMojo

  const ID_KEY: string := "id"
  const GROUP_KEY: string := "group"
  const ARTEFACT_KEY: string := "artefact"
  const VERSION_KEY: string := "version"
  const PARENT_ID_KEY: string := "parentId"

  /** A DependencyNode of the collected graph: getArtifact().getId() and the
      children. */
  datatype DepNode = DepNode(id: string, children: seq<DepNode>)

  /** The metadata pairs of one artifact; a value is None where the HashMap
      holds null. */
  function Pairs(a: Artifact, parentId: Option<string>): (m: map<string, Option<string>>)
    ensures m.Keys == {ID_KEY, GROUP_KEY, ARTEFACT_KEY, VERSION_KEY, PARENT_ID_KEY}
    ensures m[ID_KEY] == Some(a.mavenId) && m[GROUP_KEY] == Some(a.groupId)
    ensures m[ARTEFACT_KEY] == Some(a.artifactId) && m[VERSION_KEY] == Some(a.version)
    ensures m[PARENT_ID_KEY] == parentId
  {
    map[ID_KEY := Some(a.mavenId), GROUP_KEY := Some(a.groupId), ARTEFACT_KEY := Some(a.artifactId),
        VERSION_KEY := Some(a.version), PARENT_ID_KEY := parentId]
  }

  /** One completed call of JarHelper.embed. */
  datatype Job = Job(path: string, pairs: map<string, Option<string>>)

  /** The embed of artifact a, a child of the node with id parentId. */
  function JobFor(a: Artifact, parentId: string): Job
  {
    Job(TldMojo.REPO_ROOT + "/" + TldMojo.ArtefactPath(a), Pairs(a, Some(parentId)))
  }

  /** The embeds a traversal completes, in order, and whether it returns
      normally (false: a NullPointerException for a child whose id is not
      in the artifact map ends it). */
  datatype Outcome = Outcome(jobs: seq<Job>, ok: bool)

  /** embedMetadata(node): the children in order. `afs` is the artifact map
      keyed by getId(); `failing` holds the ids of artifacts whose embed
      raises an IOException. At most one embed per edge below the node, and
      the walk only throws when some node below it has no artifact. */
  function Visit(node: DepNode, afs: map<string, Artifact>, failing: set<string>): (o: Outcome)
    ensures |o.jobs| <= |PreOrder(node)|
    ensures !o.ok ==> exists e :: e in PreOrder(node) && e.1 !in afs
    decreases node, 2
  {
    VisitFirst(node, |node.children|, afs, failing)
  }

  /** The forEach over the first k children; it stops at the first failure. */
  function VisitFirst(node: DepNode, k: nat, afs: map<string, Artifact>, failing: set<string>): (o: Outcome)
    requires k <= |node.children|
    ensures |o.jobs| <= |PreOrderFirst(node, k)|
    ensures !o.ok ==> exists e :: e in PreOrderFirst(node, k) && e.1 !in afs
    decreases node, 1, k
  {
    if k == 0 then Outcome([], true)
    else
      var prev := VisitFirst(node, k - 1, afs, failing);
      if !prev.ok then prev
      else
        var c := VisitChild(node, k - 1, afs, failing);
        Outcome(prev.jobs + c.jobs, c.ok)
  }

  /** The lambda body for child i: look its artifact up (null: the
      NullPointerException escapes), embed, and only after a successful
      embed recurse into the child. */
  function VisitChild(node: DepNode, i: nat, afs: map<string, Artifact>, failing: set<string>): (o: Outcome)
    requires i < |node.children|
    ensures |o.jobs| <= 1 + |PreOrder(node.children[i])|
    ensures !o.ok ==> exists e :: e in [(node.id, node.children[i].id)] + PreOrder(node.children[i]) && e.1 !in afs
    decreases node, 0
  {
    var c := node.children[i];
    if c.id !in afs then Outcome([], false)
    else
      var a := afs[c.id];
      if a.mavenId in failing then Outcome([], true)
      else
        var sub := Visit(c, afs, failing);
        Outcome([JobFor(a, node.id)] + sub.jobs, sub.ok)
  }

  /** Once the forEach has failed it stays failed, with nothing added. */
  lemma {:induction false} FailedStays(node: DepNode, k: nat, m: nat, afs: map<string, Artifact>, failing: set<string>)
    requires k <= m <= |node.children|
    requires !VisitFirst(node, k, afs, failing).ok
    ensures VisitFirst(node, m, afs, failing) == VisitFirst(node, k, afs, failing)
    decreases m
  {
    if m > k {
      FailedStays(node, k, m - 1, afs, failing);
    }
  }

  /** The forEach after one more child, when it had not failed before. */
  lemma VisitFirstStep(node: DepNode, i: nat, afs: map<string, Artifact>, failing: set<string>,
                       start: seq<Job>, before: seq<Job>, after: seq<Job>)
    requires i < |node.children| && VisitFirst(node, i, afs, failing).ok
    requires before == start + VisitFirst(node, i, afs, failing).jobs
    requires after == before + VisitChild(node, i, afs, failing).jobs
    ensures VisitFirst(node, i + 1, afs, failing).ok == VisitChild(node, i, afs, failing).ok
    ensures after == start + VisitFirst(node, i + 1, afs, failing).jobs
  {
    Associative(start, VisitFirst(node, i, afs, failing).jobs, VisitChild(node, i, afs, failing).jobs);
  }

  /** The state of the plugin's walk: the embeds completed so far. */
  class Embedder {
    var embedded: seq<Job>

    constructor ()
      ensures embedded == []
    {
      embedded := [];
    }

    /** embedMetadata(node, localrepoRoot, afs). */
    method EmbedMetadata(node: DepNode, afs: map<string, Artifact>, failing: set<string>) returns (ok: bool)
      modifies this
      ensures embedded == old(embedded) + Visit(node, afs, failing).jobs
      ensures ok == Visit(node, afs, failing).ok
      decreases node, 1
    {
      ghost var embedded0 := embedded;
      var i := 0;
      while i < |node.children|
        invariant 0 <= i <= |node.children|
        invariant VisitFirst(node, i, afs, failing).ok
        invariant embedded == embedded0 + VisitFirst(node, i, afs, failing).jobs
      {
        ghost var before := embedded;
        var childOk := EmbedChild(node, i, afs, failing);
        VisitFirstStep(node, i, afs, failing, embedded0, before, embedded);
        if !childOk {
          FailedStays(node, i + 1, |node.children|, afs, failing);
          return false;
        }
        i := i + 1;
      }
      ok := true;
    }

    /** One step of the forEach over the node's children: a child whose
        artifact is missing stops the walk, one whose embed fails is
        skipped, any other is embedded and then walked. */
    method EmbedChild(node: DepNode, i: nat, afs: map<string, Artifact>, failing: set<string>) returns (ok: bool)
      requires i < |node.children|
      modifies this
      ensures embedded == old(embedded) + VisitChild(node, i, afs, failing).jobs
      ensures ok == VisitChild(node, i, afs, failing).ok
      decreases node, 0
    {
      var c := node.children[i];
      if c.id !in afs {
        return false;
      }
      var a := afs[c.id];
      ok := true;
      if a.mavenId !in failing {
        var pairs := map[ID_KEY := Some(a.mavenId), GROUP_KEY := Some(a.groupId),
                         ARTEFACT_KEY := Some(a.artifactId), VERSION_KEY := Some(a.version),
                         PARENT_ID_KEY := Some(node.id)];
        var artefactPath := TldMojo.ArtefactPath(a);
        embedded := embedded + [Job(TldMojo.REPO_ROOT + "/" + artefactPath, pairs)];
        ok := EmbedMetadata(c, afs, failing);
      }
    }
  }

  // ---------------------------------------------------------------------
  // Properties of the walk

  /** Every embed carries the five keys and a parentId that is never null:
      the walk only embeds children, whose parent is the node being walked. */
  lemma {:induction false} ParentIdsPresent(node: DepNode, afs: map<string, Artifact>, failing: set<string>)
    ensures forall j :: j in Visit(node, afs, failing).jobs ==>
      j.pairs.Keys == {ID_KEY, GROUP_KEY, ARTEFACT_KEY, VERSION_KEY, PARENT_ID_KEY} && j.pairs[PARENT_ID_KEY].Some?
    decreases node, 2
  {
    ParentIdsPresentFirst(node, |node.children|, afs, failing);
  }

  lemma {:induction false} ParentIdsPresentFirst(node: DepNode, k: nat, afs: map<string, Artifact>, failing: set<string>)
    requires k <= |node.children|
    ensures forall j :: j in VisitFirst(node, k, afs, failing).jobs ==>
      j.pairs.Keys == {ID_KEY, GROUP_KEY, ARTEFACT_KEY, VERSION_KEY, PARENT_ID_KEY} && j.pairs[PARENT_ID_KEY].Some?
    decreases node, 1, k
  {
    if k > 0 {
      ParentIdsPresentFirst(node, k - 1, afs, failing);
      var c := node.children[k - 1];
      if c.id in afs && afs[c.id].mavenId !in failing {
        ParentIdsPresent(c, afs, failing);
      }
    }
  }

  /** The (parent id, child id) edges below a node in pre-order: each child's
      edge, then the edges below that child, child by child. */
  function PreOrder(node: DepNode): seq<(string, string)>
    decreases node, 1
  {
    PreOrderFirst(node, |node.children|)
  }

  function PreOrderFirst(node: DepNode, k: nat): seq<(string, string)>
    requires k <= |node.children|
    decreases node, 0, k
  {
    if k == 0 then []
    else PreOrderFirst(node, k - 1) + [(node.id, node.children[k - 1].id)] + PreOrder(node.children[k - 1])
  }

  /** Every node below `node` has its artifact in the map, and no embed
      fails. */
  ghost predicate Resolvable(node: DepNode, afs: map<string, Artifact>, failing: set<string>)
    decreases node
  {
    forall i :: 0 <= i < |node.children| ==>
      && node.children[i].id in afs
      && afs[node.children[i].id].mavenId !in failing
      && Resolvable(node.children[i], afs, failing)
  }

  /** The embeds for a list of edges: each child's artifact, with its parent
      (an edge to an id outside the map has none). */
  function JobsOf(edges: seq<(string, string)>, afs: map<string, Artifact>): (jobs: seq<Job>)
    ensures |jobs| <= |edges|
  {
    if edges == [] then []
    else
      var e := edges[|edges| - 1];
      JobsOf(edges[..|edges| - 1], afs) + (if e.1 in afs then [JobFor(afs[e.1], e.0)] else [])
  }

  lemma {:induction false} JobsOfConcat(a: seq<(string, string)>, b: seq<(string, string)>, afs: map<string, Artifact>)
    ensures JobsOf(a + b, afs) == JobsOf(a, afs) + JobsOf(b, afs)
    decreases |b|
  {
    if b == [] {
      assert a + b == a;
    } else {
      var b' := b[..|b| - 1];
      assert (a + b)[..|a + b| - 1] == a + b';
      assert (a + b)[|a + b| - 1] == b[|b| - 1];
      JobsOfConcat(a, b', afs);
    }
  }

  /** Every edge below a resolvable node ends at an id in the map. */
  lemma {:induction false} PreOrderResolved(node: DepNode, afs: map<string, Artifact>, failing: set<string>)
    requires Resolvable(node, afs, failing)
    ensures forall e :: e in PreOrder(node) ==> e.1 in afs
    decreases node, 1
  {
    PreOrderFirstResolved(node, |node.children|, afs, failing);
  }

  lemma {:induction false} PreOrderFirstResolved(node: DepNode, k: nat, afs: map<string, Artifact>, failing: set<string>)
    requires k <= |node.children|
    requires Resolvable(node, afs, failing)
    ensures forall e :: e in PreOrderFirst(node, k) ==> e.1 in afs
    decreases node, 0, k
  {
    if k > 0 {
      PreOrderFirstResolved(node, k - 1, afs, failing);
      PreOrderResolved(node.children[k - 1], afs, failing);
    }
  }

  /** When every artifact is found and every embed succeeds, the walk embeds
      exactly the children of the graph in pre-order, each with its parent's
      id, and returns normally. */
  lemma {:induction false} WalkIsPreOrder(node: DepNode, afs: map<string, Artifact>, failing: set<string>)
    requires Resolvable(node, afs, failing)
    ensures forall e :: e in PreOrder(node) ==> e.1 in afs
    ensures Visit(node, afs, failing) == Outcome(JobsOf(PreOrder(node), afs), true)
    decreases node, 1
  {
    PreOrderResolved(node, afs, failing);
    VisitIsPreOrder(node, afs, failing);
  }

  /** The walk part of WalkIsPreOrder, on its own for the induction. */
  lemma {:induction false} VisitIsPreOrder(node: DepNode, afs: map<string, Artifact>, failing: set<string>)
    requires Resolvable(node, afs, failing)
    ensures Visit(node, afs, failing) == Outcome(JobsOf(PreOrder(node), afs), true)
    decreases node, 1
  {
    WalkIsPreOrderFirst(node, |node.children|, afs, failing);
  }

  lemma {:induction false} WalkIsPreOrderFirst(node: DepNode, k: nat, afs: map<string, Artifact>, failing: set<string>)
    requires k <= |node.children|
    requires Resolvable(node, afs, failing)
    ensures VisitFirst(node, k, afs, failing) == Outcome(JobsOf(PreOrderFirst(node, k), afs), true)
    decreases node, 0, k
  {
    if k > 0 {
      WalkIsPreOrderFirst(node, k - 1, afs, failing);
      ResolvableChild(node, k - 1, afs, failing);
      VisitIsPreOrder(node.children[k - 1], afs, failing);
      PreOrderFirstStep(node, k, afs, failing);
    }
  }

  /** A resolvable node's children are resolvable, with artifacts that embed. */
  lemma ResolvableChild(node: DepNode, i: nat, afs: map<string, Artifact>, failing: set<string>)
    requires i < |node.children|
    requires Resolvable(node, afs, failing)
    ensures node.children[i].id in afs && afs[node.children[i].id].mavenId !in failing
    ensures Resolvable(node.children[i], afs, failing)
  {
  }

  /** The induction step of WalkIsPreOrderFirst, once the walk over the first
      k - 1 children and the walk below child k - 1 are known. */
  lemma PreOrderFirstStep(node: DepNode, k: nat, afs: map<string, Artifact>, failing: set<string>)
    requires 0 < k <= |node.children|
    requires node.children[k - 1].id in afs && afs[node.children[k - 1].id].mavenId !in failing
    requires VisitFirst(node, k - 1, afs, failing) == Outcome(JobsOf(PreOrderFirst(node, k - 1), afs), true)
    requires Visit(node.children[k - 1], afs, failing) == Outcome(JobsOf(PreOrder(node.children[k - 1]), afs), true)
    ensures VisitFirst(node, k, afs, failing) == Outcome(JobsOf(PreOrderFirst(node, k), afs), true)
  {
    var c := node.children[k - 1];
    var before := PreOrderFirst(node, k - 1);
    var edge := [(node.id, c.id)];
    var below := PreOrder(c);
    VisitSucceedsStep(node, k, afs, failing, JobsOf(before, afs), JobsOf(below, afs));
    assert PreOrderFirst(node, k) == before + edge + below;
    JobsOfEdge(before, node.id, c.id, below, afs);
  }

  /** One step of the forEach when everything so far succeeded and the
      k-th child's walk succeeds: its job, then the jobs below it. */
  lemma VisitSucceedsStep(node: DepNode, k: nat, afs: map<string, Artifact>, failing: set<string>,
                          prev: seq<Job>, sub: seq<Job>)
    requires 0 < k <= |node.children|
    requires node.children[k - 1].id in afs && afs[node.children[k - 1].id].mavenId !in failing
    requires VisitFirst(node, k - 1, afs, failing) == Outcome(prev, true)
    requires Visit(node.children[k - 1], afs, failing) == Outcome(sub, true)
    ensures VisitFirst(node, k, afs, failing)
            == Outcome(prev + ([JobFor(afs[node.children[k - 1].id], node.id)] + sub), true)
  {
    assert VisitChild(node, k - 1, afs, failing)
           == Outcome([JobFor(afs[node.children[k - 1].id], node.id)] + sub, true);
  }

  /** The jobs of the edges before a child, the child's edge, and the edges
      below it. */
  lemma JobsOfEdge(before: seq<(string, string)>, parent: string, child: string,
                   below: seq<(string, string)>, afs: map<string, Artifact>)
    requires child in afs
    ensures JobsOf(before + [(parent, child)] + below, afs)
            == JobsOf(before, afs) + ([JobFor(afs[child], parent)] + JobsOf(below, afs))
  {
    var edge := [(parent, child)];
    var job := JobFor(afs[child], parent);
    JobsOfConcat(before + edge, below, afs);
    JobsOfConcat(before, edge, afs);
    assert JobsOf(edge, afs) == [job] by {
      assert edge[..0] == [];
      assert JobsOf([], afs) == [];
    }
    assert JobsOf(before, afs) + ([job] + JobsOf(below, afs))
           == JobsOf(before, afs) + [job] + JobsOf(below, afs);
  }
}
