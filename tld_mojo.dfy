/** EmbeddingMojo of tld.domain.me (the first plugin): for every resolved
    artifact, three metadata pairs and the repository path of the jar the
    pairs are embedded in. */
module TldMojo {
  import opened Coordinates
  import ProjectMojo

  const GROUP_ID_KEY: string := "GroupId"
  const ARTIFACT_ID_KEY: string := "ArtifactId"
  const VERSION_KEY: string := "Version"

  /** getArtefactPath(a): the base version names the directory, the
      resolved version the file. */
  function ArtefactPath(a: Artifact): (r: string)
    ensures r == ProjectMojo.ArtefactPath(a, true)
  {
    RepoPath(a.groupId, a.artifactId, a.baseVersion, a.version, a.classifier)
  }

  /** The path is the one the io.github.project plugin builds when it
      resolves snapshots, and it splits into the group's '.'-fields, the
      artifact id, the base version and the jar named after the version. */
  lemma ArtefactPathLayout(a: Artifact)
    requires Free(a.groupId, '/') && Free(a.artifactId, '/') && Free(a.baseVersion, '/') && Free(a.version, '/')
    requires a.classifier.Some? ==> Free(a.classifier.value, '/')
    ensures ArtefactPath(a) == ProjectMojo.ArtefactPath(a, true)
    ensures Split(ArtefactPath(a), '/')
            == Split(a.groupId, '.') + [a.artifactId, a.baseVersion, JarName(a.artifactId, a.version, a.classifier)]
  {
  }

  /** The metadata pairs put into the HashMap for one artifact. */
  function Pairs(a: Artifact): (m: map<string, string>)
    ensures m.Keys == {GROUP_ID_KEY, ARTIFACT_ID_KEY, VERSION_KEY}
    ensures m[GROUP_ID_KEY] == a.groupId && m[ARTIFACT_ID_KEY] == a.artifactId
    ensures m[VERSION_KEY] == a.version
  {
    map[GROUP_ID_KEY := a.groupId, ARTIFACT_ID_KEY := a.artifactId, VERSION_KEY := a.version]
  }

  /** One call of JarHelper.embed: the target path below classport-files and
      the pairs. */
  datatype Job = Job(path: string, pairs: map<string, string>)

  const REPO_ROOT: string := "classport-files"

  function JobFor(a: Artifact): Job
  {
    Job(REPO_ROOT + "/" + ArtefactPath(a), Pairs(a))
  }

  /** The embeds that complete, in artifact order: one per artifact, except
      those whose embed raises an IOException (`failing` holds their ids as
      getId() gives them), which are reported and skipped. */
  function Completed(afs: seq<Artifact>, failing: set<string>): (jobs: seq<Job>)
    ensures |jobs| <= |afs|
  {
    if afs == [] then []
    else
      var init := Completed(afs[..|afs| - 1], failing);
      var a := afs[|afs| - 1];
      if a.mavenId in failing then init else init + [JobFor(a)]
  }

  /** execute(): the loop over the project's artifacts. */
  method Execute(afs: seq<Artifact>, failing: set<string>) returns (jobs: seq<Job>)
    ensures jobs == Completed(afs, failing)
  {
    jobs := [];
    var i := 0;
    while i < |afs|
      invariant 0 <= i <= |afs|
      invariant jobs == Completed(afs[..i], failing)
    {
      assert afs[..i + 1][..i] == afs[..i];
      var a := afs[i];
      var pairs := map[GROUP_ID_KEY := a.groupId, ARTIFACT_ID_KEY := a.artifactId, VERSION_KEY := a.version];
      var artefactPath := ArtefactPath(a);
      if a.mavenId !in failing {
        jobs := jobs + [Job(REPO_ROOT + "/" + artefactPath, pairs)];
      }
      i := i + 1;
    }
    assert afs[..i] == afs;
  }

  /** A failing artifact does not stop the loop: every artifact that does not
      fail gets its embed, and every completed embed belongs to such an
      artifact. */
  lemma {:induction false} CompletedIff(afs: seq<Artifact>, failing: set<string>, j: Job)
    ensures j in Completed(afs, failing) <==> exists a :: a in afs && a.mavenId !in failing && j == JobFor(a)
  {
    if afs != [] {
      var init := afs[..|afs| - 1];
      CompletedIff(init, failing, j);
      assert afs == init + [afs[|afs| - 1]];
      if exists a :: a in afs && a.mavenId !in failing && j == JobFor(a) {
        var a :| a in afs && a.mavenId !in failing && j == JobFor(a);
        if a != afs[|afs| - 1] {
          assert a in init;
        }
      }
    }
  }

  /** Without failures there is exactly one embed per artifact, in order. */
  lemma {:induction false} CompletedAll(afs: seq<Artifact>, failing: set<string>)
    requires forall i :: 0 <= i < |afs| ==> afs[i].mavenId !in failing
    ensures var jobs := Completed(afs, failing);
      |jobs| == |afs| && forall i :: 0 <= i < |afs| ==> jobs[i] == JobFor(afs[i])
  {
    if afs != [] {
      CompletedAll(afs[..|afs| - 1], failing);
    }
  }
}
