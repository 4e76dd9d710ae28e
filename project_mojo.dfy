/** EmbeddingMojo of io.github.project.classport.plugin: the long ids it
    gives artifacts and dependencies, the metadata record it embeds in an
    artifact's classes, the repository path of the rewritten jar, and the
    header test that decides which files of a class directory are rewritten. */
module ProjectMojo {
  import opened Wrappers
  import opened SeqFacts
  import opened Bytes
  import opened Records
  import opened Coordinates

  const SCOPE_TEST: string := "test"

  /** getDependencyLongId(dep): with no ':' inside the coordinates, the id
      splits back into them. */
  function DependencyLongId(d: Dependency): (r: string)
    ensures ColonFree(d) ==> Split(r, ':') == LongIdFields(d.groupId, d.artifactId, d.typ, d.classifier, d.version)
  {
    LongId(d.groupId, d.artifactId, d.typ, d.classifier, d.version)
  }

  /** getArtifactLongId(a): with no ':' inside the coordinates, the id
      splits back into them. */
  function ArtifactLongId(a: Artifact): (r: string)
    ensures ArtifactColonFree(a) ==> Split(r, ':') == LongIdFields(a.groupId, a.artifactId, a.typ, a.classifier, a.version)
  {
    LongId(a.groupId, a.artifactId, a.typ, a.classifier, a.version)
  }

  /** No ':' inside any coordinate of the dependency. */
  predicate ColonFree(d: Dependency)
  {
    && Free(d.groupId, ':') && Free(d.artifactId, ':') && Free(d.typ, ':') && Free(d.version, ':')
    && (d.classifier.Some? ==> Free(d.classifier.value, ':'))
  }

  /** No ':' inside any coordinate of the artifact. */
  predicate ArtifactColonFree(a: Artifact)
  {
    && Free(a.groupId, ':') && Free(a.artifactId, ':') && Free(a.typ, ':') && Free(a.version, ':')
    && (a.classifier.Some? ==> Free(a.classifier.value, ':'))
  }

  /** The dependency names the artifact's coordinates (version included). */
  predicate SameCoordinates(d: Dependency, a: Artifact)
  {
    && d.groupId == a.groupId && d.artifactId == a.artifactId && d.typ == a.typ
    && d.classifier == a.classifier && d.version == a.version
  }

  /** Both ids have one shape: a dependency and an artifact with the same
      coordinates get the same long id, and with no ':' inside the
      coordinates only they do. */
  lemma LongIdsMatch(d: Dependency, a: Artifact)
    requires ColonFree(d) && ArtifactColonFree(a)
    ensures DependencyLongId(d) == ArtifactLongId(a) <==> SameCoordinates(d, a)
  {
    if DependencyLongId(d) == ArtifactLongId(a) {
      var fd := LongIdFields(d.groupId, d.artifactId, d.typ, d.classifier, d.version);
      var fa := LongIdFields(a.groupId, a.artifactId, a.typ, a.classifier, a.version);
      assert fd == fa;
      assert d.classifier.Some? == a.classifier.Some? by {
        assert |fd| == |fa|;
      }
      assert d.version == fd[|fd| - 1] == fa[|fa| - 1] == a.version;
      if d.classifier.Some? {
        assert d.classifier.value == fd[3] == fa[3] == a.classifier.value;
      }
      assert d.groupId == fd[0] && d.artifactId == fd[1] && d.typ == fd[2];
    }
  }

  /** The long ids of the project's declared dependencies, in order. */
  function DependencyLongIds(deps: seq<Dependency>): (ids: seq<string>)
    ensures |ids| == |deps|
    ensures forall i :: 0 <= i < |deps| ==> ids[i] == DependencyLongId(deps[i])
  {
    if deps == [] then [] else [DependencyLongId(deps[0])] + DependencyLongIds(deps[1..])
  }

  /** The isDirectDependency computation of getMetadata: one of the
      project's declared dependencies has the artifact's long id. */
  function IsDirectDependency(a: Artifact, projectDeps: seq<Dependency>): (b: bool)
    ensures b <==> exists i :: 0 <= i < |projectDeps| && DependencyLongId(projectDeps[i]) == ArtifactLongId(a)
  {
    ArtifactLongId(a) in DependencyLongIds(projectDeps)
  }

  /** With ':'-free coordinates, an artifact is a direct dependency exactly
      when one of the project's declared dependencies names its coordinates. */
  lemma DirectDependencyIff(a: Artifact, projectDeps: seq<Dependency>)
    ensures ArtifactColonFree(a) && (forall i :: 0 <= i < |projectDeps| ==> ColonFree(projectDeps[i])) ==>
            (IsDirectDependency(a, projectDeps)
             <==> exists i :: 0 <= i < |projectDeps| && SameCoordinates(projectDeps[i], a))
  {
    if ArtifactColonFree(a) && forall i :: 0 <= i < |projectDeps| ==> ColonFree(projectDeps[i]) {
      forall i | 0 <= i < |projectDeps|
        ensures DependencyLongId(projectDeps[i]) == ArtifactLongId(a) <==> SameCoordinates(projectDeps[i], a)
      {
        LongIdsMatch(projectDeps[i], a);
      }
    }
  }

  // ---------------------------------------------------------------------
  // childIds

  /** The filter of getMetadata's childIds stream: getScope().equals("test")
      on each dependency in turn, a null scope raising NullPointerException. */
  function ChildIds(deps: seq<Dependency>): (r: Result<seq<string>>)
    ensures r.Err? ==> r.error == NullPointer
    ensures r.Ok? ==> |r.value| <= |deps|
  {
    if deps == [] then Ok([])
    else if deps[0].scope.None? then Err(NullPointer)
    else
      var rest := ChildIds(deps[1..]);
      if rest.Err? then rest
      else Ok((if deps[0].scope.value == SCOPE_TEST then [] else [DependencyLongId(deps[0])]) + rest.value)
  }

  /** The stream fails exactly when some dependency has no scope. */
  lemma {:induction false} ChildIdsFails(deps: seq<Dependency>)
    ensures ChildIds(deps).Err? <==> exists i :: 0 <= i < |deps| && deps[i].scope.None?
  {
    if deps != [] {
      ChildIdsFails(deps[1..]);
      if exists i :: 0 <= i < |deps| && deps[i].scope.None? {
        var i :| 0 <= i < |deps| && deps[i].scope.None?;
        if i > 0 {
          assert deps[1..][i - 1].scope.None?;
        }
      }
      if exists i :: 0 <= i < |deps[1..]| && deps[1..][i].scope.None? {
        var i :| 0 <= i < |deps[1..]| && deps[1..][i].scope.None?;
        assert deps[i + 1].scope.None?;
      }
    }
  }

  /** The dependencies whose scope is not "test", in order. */
  function NonTest(deps: seq<Dependency>): (r: seq<Dependency>)
    ensures forall d :: d in r <==> d in deps && d.scope != Some(SCOPE_TEST)
  {
    if deps == [] then []
    else (if deps[0].scope == Some(SCOPE_TEST) then [] else [deps[0]]) + NonTest(deps[1..])
  }

  /** With every scope present, childIds are the long ids of the non-test
      dependencies, in their order. */
  lemma {:induction false} ChildIdsFilterMap(deps: seq<Dependency>)
    requires forall i :: 0 <= i < |deps| ==> deps[i].scope.Some?
    ensures ChildIds(deps) == Ok(DependencyLongIds(NonTest(deps)))
  {
    if deps != [] {
      ChildIdsFilterMap(deps[1..]);
      var head: seq<Dependency> := if deps[0].scope == Some(SCOPE_TEST) then [] else [deps[0]];
      DependencyLongIdsConcat(head, NonTest(deps[1..]));
    }
  }

  lemma {:induction false} DependencyLongIdsConcat(a: seq<Dependency>, b: seq<Dependency>)
    ensures DependencyLongIds(a + b) == DependencyLongIds(a) + DependencyLongIds(b)
  {
    if a != [] {
      assert (a + b)[1..] == a[1..] + b;
      DependencyLongIdsConcat(a[1..], b);
    }
  }

  /** childIds over two lists is childIds over each, in order; the first
      null scope fails the whole stream. */
  lemma {:induction false} ChildIdsConcat(a: seq<Dependency>, b: seq<Dependency>)
    ensures ChildIds(a + b).Ok? <==> ChildIds(a).Ok? && ChildIds(b).Ok?
    ensures ChildIds(a + b).Ok? ==> ChildIds(a + b).value == ChildIds(a).value + ChildIds(b).value
  {
    if a == [] {
      assert a + b == b;
    } else {
      assert (a + b)[1..] == a[1..] + b;
      assert (a + b)[0] == a[0];
      ChildIdsConcat(a[1..], b);
      if a[0].scope.Some? && ChildIds(a[1..] + b).Ok? {
        var head := if a[0].scope.value == SCOPE_TEST then [] else [DependencyLongId(a[0])];
        Associative(head, ChildIds(a[1..]).value, ChildIds(b).value);
      }
    }
  }

  /** x is the long id of a dependency whose scope is not "test". */
  predicate NonTestLongId(deps: seq<Dependency>, x: string)
  {
    exists d :: d in deps && d.scope != Some(SCOPE_TEST) && DependencyLongId(d) == x
  }

  // ---------------------------------------------------------------------
  // getMetadata

  /** getMetadata(artifact): the record embedded in the artifact's classes.
      `projectDeps` are the project's declared dependencies and `modelDeps`
      the dependencies of the artifact's own model. */
  function Metadata(project: Artifact, projectDeps: seq<Dependency>, a: Artifact, modelDeps: seq<Dependency>)
    : (r: Result<ClassportInfo>)
    ensures r.Err? <==> exists i :: 0 <= i < |modelDeps| && modelDeps[i].scope.None?
    ensures r.Ok? ==> ChildIds(modelDeps).Ok? && r.value.childIds == ChildIds(modelDeps).value
  {
    ChildIdsFails(modelDeps);
    var children := ChildIds(modelDeps);
    if children.Err? then Err(children.error)
    else
      var aId := ArtifactLongId(a);
      Ok(ClassportInfo(ArtifactLongId(project), IsDirectDependency(a, projectDeps), aId,
                       a.artifactId, a.groupId, a.version, children.value))
  }

  /** The record names the project and the artifact by their long ids, is
      direct exactly when a declared dependency has the artifact's long id,
      carries the resolved version, and lists the long ids of the model's
      non-test dependencies. */
  lemma MetadataFields(project: Artifact, projectDeps: seq<Dependency>, a: Artifact, modelDeps: seq<Dependency>)
    requires forall i :: 0 <= i < |modelDeps| ==> modelDeps[i].scope.Some?
    ensures var r := Metadata(project, projectDeps, a, modelDeps);
      && r.Ok?
      && r.value.sourceProjectId == ArtifactLongId(project)
      && r.value.id == ArtifactLongId(a)
      && (r.value.isDirectDependency
          <==> exists i :: 0 <= i < |projectDeps| && DependencyLongId(projectDeps[i]) == r.value.id)
      && r.value.artefact == a.artifactId && r.value.group == a.groupId && r.value.version == a.version
      && (forall x :: x in r.value.childIds <==> NonTestLongId(modelDeps, x))
  {
    ChildIdsFilterMap(modelDeps);
    NonTestIds(modelDeps);
  }

  /** The long ids of the non-test dependencies are exactly the ids some
      non-test dependency has. */
  lemma NonTestIds(modelDeps: seq<Dependency>)
    ensures forall x :: x in DependencyLongIds(NonTest(modelDeps)) <==> NonTestLongId(modelDeps, x)
  {
    var kept := NonTest(modelDeps);
    var ids := DependencyLongIds(kept);
    forall x
      ensures x in ids <==> NonTestLongId(modelDeps, x)
    {
      if x in ids {
        var i :| 0 <= i < |ids| && ids[i] == x;
        assert kept[i] in kept;
      }
      if exists d :: d in modelDeps && d.scope != Some(SCOPE_TEST) && DependencyLongId(d) == x {
        var d :| d in modelDeps && d.scope != Some(SCOPE_TEST) && DependencyLongId(d) == x;
        var i :| 0 <= i < |kept| && kept[i] == d;
        assert ids[i] == x;
      }
    }
  }

  // ---------------------------------------------------------------------
  // getArtefactPath

  /** getArtefactPath(a, resolveSnapshotVersion): the directory always uses
      the base version, the file name the resolved version only when asked.
      The path is the group's '.'-fields, the artifact id, the base version
      and a jar named after the artifact, the chosen version and the
      classifier. */
  function ArtefactPath(a: Artifact, resolveSnapshotVersion: bool): (r: string)
    ensures JavaStrings.EndsWith(r, ".jar")
    ensures && Free(a.groupId, '/') && Free(a.artifactId, '/') && Free(a.baseVersion, '/') && Free(a.version, '/')
            && (a.classifier.Some? ==> Free(a.classifier.value, '/'))
            ==> Split(r, '/') == Split(a.groupId, '.') + [a.artifactId, a.baseVersion,
                  JarName(a.artifactId, if resolveSnapshotVersion then a.version else a.baseVersion, a.classifier)]
  {
    RepoPath(a.groupId, a.artifactId, a.baseVersion,
             if resolveSnapshotVersion then a.version else a.baseVersion, a.classifier)
  }

  /** The two choices agree for a non-snapshot artifact. */
  lemma ArtefactPathLayout(a: Artifact, resolveSnapshotVersion: bool)
    ensures a.version == a.baseVersion ==> ArtefactPath(a, true) == ArtefactPath(a, false)
  {
  }

  // ---------------------------------------------------------------------
  // embedDirectory

  /** What embedDirectory leaves in one regular file: a class file (by its
      header) rewritten by the metadata adder with the artifact's record,
      anything else untouched; an Err is the exception the adder throws. */
  function Embedded(content: seq<byte>, info: ClassportInfo,
                    add: (ClassportInfo, seq<byte>) -> Result<seq<byte>>): (r: Result<seq<byte>>)
    ensures !IsClassFile(content) ==> r == Ok(content)
    ensures r.Err? ==> IsClassFile(content) && add(info, content) == Err(r.error)
  {
    if IsClassFile(content) then add(info, content) else Ok(content)
  }

  /** embedDirectory(a, dirToWalk) over the contents of the directory's
      regular files, in walk order. The record comes first, from
      getMetadata(a) over the artifact's model dependencies `modelDeps`;
      its NullPointerException ends the call before the directory is even
      looked at. `add(info, original)` stands for new
      MetadataAdder(original).add(info). Nothing changes when the directory
      does not exist. Otherwise the call fails exactly when the adder throws
      on some class file; the files are processed in parallel, so a failed
      call may leave any file rewritten or untouched, and only that much is
      promised about it. */
  method EmbedDirectory(project: Artifact, projectDeps: seq<Dependency>, a: Artifact, modelDeps: seq<Dependency>,
                        files: array<seq<byte>>, dirExists: bool,
                        add: (ClassportInfo, seq<byte>) -> Result<seq<byte>>)
    returns (r: Result<()>)
    modifies files
    ensures Metadata(project, projectDeps, a, modelDeps).Err? ==>
              r == Err(Metadata(project, projectDeps, a, modelDeps).error) && files[..] == old(files[..])
    ensures !dirExists ==> r.Ok? == Metadata(project, projectDeps, a, modelDeps).Ok? && files[..] == old(files[..])
    ensures r.Ok? <==>
              && Metadata(project, projectDeps, a, modelDeps).Ok?
              && (!dirExists || forall i :: 0 <= i < files.Length ==>
                    Embedded(old(files[i]), Metadata(project, projectDeps, a, modelDeps).value, add).Ok?)
    ensures r.Ok? && dirExists ==> forall i :: 0 <= i < files.Length ==>
              files[i] == Embedded(old(files[i]), Metadata(project, projectDeps, a, modelDeps).value, add).value
    ensures forall i :: 0 <= i < files.Length ==>
              || files[i] == old(files[i])
              || (&& Metadata(project, projectDeps, a, modelDeps).Ok?
                  && Embedded(old(files[i]), Metadata(project, projectDeps, a, modelDeps).value, add).Ok?
                  && files[i] == Embedded(old(files[i]), Metadata(project, projectDeps, a, modelDeps).value, add).value)
  {
    var meta := Metadata(project, projectDeps, a, modelDeps);
    if meta.Err? {
      return Err(meta.error);
    }
    var metadata := meta.value;
    if !dirExists {
      return Ok(());
    }
    var i := 0;
    while i < files.Length
      invariant 0 <= i <= files.Length
      invariant forall j :: 0 <= j < i ==>
                  Embedded(old(files[j]), metadata, add).Ok? && files[j] == Embedded(old(files[j]), metadata, add).value
      invariant forall j :: i <= j < files.Length ==> files[j] == old(files[j])
    {
      var content := files[i];
      var header := ReadNBytes(content, 4);
      var isClassFile := |header| == 4 && header == MAGIC_BYTES;
      if isClassFile {
        var original := header + content[|header|..];
        var modified := add(metadata, original);
        if modified.Err? {
          assert !Embedded(old(files[i]), metadata, add).Ok?;
          return Err(modified.error);
        }
        files[i] := modified.value;
      }
      i := i + 1;
    }
    return Ok(());
  }
}
