/** EmbeddingMojo of io.github.chains_project.classport.plugin: short
    group:artifact:version ids, the five-element metadata record of that
    package and a repository path that uses the base version throughout. */
module ChainsMojo {
  import opened Coordinates
  import ProjectMojo

  /** ClassportInfo of io.github.chains_project.classport.commons: its five
      elements in declaration order. */
  datatype ChainsInfo = ChainsInfo(
    id: string,
    artefact: string,
    group: string,
    version: string,
    childIds: seq<string>)

  /** getDependencyId(dep): with no ':' inside the coordinates, the id
      splits back into them. */
  function DependencyId(d: Dependency): (r: string)
    ensures Free(d.groupId, ':') && Free(d.artifactId, ':') && Free(d.version, ':') ==>
              Split(r, ':') == [d.groupId, d.artifactId, d.version]
  {
    ShortId(d.groupId, d.artifactId, d.version)
  }

  /** The childIds stream of getMetadata: every dependency of the model, no
      scope filter, in order. */
  function DependencyIds(deps: seq<Dependency>): (ids: seq<string>)
    ensures |ids| == |deps|
    ensures forall i :: 0 <= i < |deps| ==> ids[i] == DependencyId(deps[i])
  {
    if deps == [] then [] else [DependencyId(deps[0])] + DependencyIds(deps[1..])
  }

  /** getMetadata(artifact): coordinates built from the base version, which
      is also the recorded version. */
  function Metadata(a: Artifact, modelDeps: seq<Dependency>): (r: ChainsInfo)
    ensures r.version == a.baseVersion
    ensures r.childIds == DependencyIds(modelDeps)
  {
    ChainsInfo(ShortId(a.groupId, a.artifactId, a.baseVersion), a.artifactId, a.groupId,
               a.baseVersion, DependencyIds(modelDeps))
  }

  /** The embedded id has the shape of a dependency id: a dependency whose
      version is the artifact's base version gets the artifact's id, and with
      no ':' inside the coordinates only such a dependency does. */
  lemma EmbeddedIdMirrorsDependencyId(a: Artifact, modelDeps: seq<Dependency>, d: Dependency)
    requires Free(d.groupId, ':') && Free(d.artifactId, ':') && Free(d.version, ':')
    requires Free(a.groupId, ':') && Free(a.artifactId, ':') && Free(a.baseVersion, ':')
    ensures Metadata(a, modelDeps).id == DependencyId(d)
            <==> d.groupId == a.groupId && d.artifactId == a.artifactId && d.version == a.baseVersion
  {
  }

  /** getArtefactPath(a): the base version in the directory and in the file
      name. */
  function ArtefactPath(a: Artifact): (r: string)
    ensures r == ProjectMojo.ArtefactPath(a, false)
  {
    RepoPath(a.groupId, a.artifactId, a.baseVersion, a.baseVersion, a.classifier)
  }

  /** The path is the one the io.github.project plugin builds without
      resolving snapshots, so it never depends on the resolved version, and
      it splits into the group's '.'-fields, the artifact id, the base
      version and the jar name. */
  lemma ArtefactPathLayout(a: Artifact, resolved: string)
    requires Free(a.groupId, '/') && Free(a.artifactId, '/') && Free(a.baseVersion, '/') && Free(a.version, '/')
    requires a.classifier.Some? ==> Free(a.classifier.value, '/')
    ensures ArtefactPath(a) == ProjectMojo.ArtefactPath(a, false)
    ensures ArtefactPath(a) == ArtefactPath(a.(version := resolved))
    ensures Split(ArtefactPath(a), '/')
            == Split(a.groupId, '.') + [a.artifactId, a.baseVersion, JarName(a.artifactId, a.baseVersion, a.classifier)]
  {
  }
}
