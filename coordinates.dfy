/** Maven coordinates as the build plugins read them, the ids they build by
    joining coordinates with ':' and the repository paths they build by
    joining segments with '/', together with splitting such text back into
    its fields. */
module Coordinates {
  import opened Wrappers
  import opened JavaStrings

  /** The parts of an org.apache.maven.artifact.Artifact the plugins read;
      `classifier` is None where getClassifier() returns null, `mavenId` is
      what getId() returns. */
  datatype Artifact = Artifact(
    groupId: string,
    artifactId: string,
    typ: string,
    classifier: Option<string>,
    version: string,
    baseVersion: string,
    mavenId: string)

  /** The parts of an org.apache.maven.model.Dependency the plugins read;
      `scope` is None where getScope() returns null. */
  datatype Dependency = Dependency(
    groupId: string,
    artifactId: string,
    typ: string,
    classifier: Option<string>,
    version: string,
    scope: Option<string>)

  // ---------------------------------------------------------------------
  // Splitting text at a separator

  /** The fields of s between occurrences of sep (at least one field). */
  function Split(s: string, sep: char): (r: seq<string>)
    ensures |r| >= 1
  {
    if s == [] then [[]] else Extend(Split(s[..|s| - 1], sep), s[|s| - 1], sep)
  }

  /** Reading one more character: a separator opens an empty field, anything
      else extends the last field. */
  function Extend(f: seq<string>, c: char, sep: char): (r: seq<string>)
    requires |f| >= 1
    ensures |r| >= 1
  {
    if c == sep then f + [[]] else f[..|f| - 1] + [f[|f| - 1] + [c]]
  }

  /** sep does not occur in s. */
  predicate Free(s: string, sep: char)
  {
    forall i :: 0 <= i < |s| ==> s[i] != sep
  }

  /** Text without the separator is one field. */
  lemma {:induction false} SplitFree(s: string, sep: char)
    requires Free(s, sep)
    ensures Split(s, sep) == [s]
    decreases |s|
  {
    if s != [] {
      SplitFree(s[..|s| - 1], sep);
      assert s[..|s| - 1] + [s[|s| - 1]] == s;
    }
  }

  lemma SplitSnoc(t: string, c: char, sep: char)
    ensures Split(t + [c], sep) == Extend(Split(t, sep), c, sep)
  {
    assert (t + [c])[..|t + [c]| - 1] == t;
  }

  /** Extending only touches the fields after the untouched prefix. */
  lemma ExtendAppend(fa: seq<string>, fb: seq<string>, c: char, sep: char)
    requires |fb| >= 1
    ensures Extend(fa + fb, c, sep) == fa + Extend(fb, c, sep)
  {
    if c != sep {
      var f := fa + fb;
      assert f[|f| - 1] == fb[|fb| - 1];
      assert f[..|f| - 1] == fa + fb[..|fb| - 1];
    }
  }

  /** Splitting a + sep + b: the fields of a, then those of b. */
  lemma {:induction false} SplitAround(a: string, b: string, sep: char)
    ensures Split(a + [sep] + b, sep) == Split(a, sep) + Split(b, sep)
    decreases |b|
  {
    if b == [] {
      SplitSnoc(a, sep, sep);
      assert a + [sep] + b == a + [sep];
    } else {
      var b' := b[..|b| - 1];
      var c := b[|b| - 1];
      assert b == b' + [c];
      assert a + [sep] + b == (a + [sep] + b') + [c];
      SplitAround(a, b', sep);
      SplitSnoc(a + [sep] + b', c, sep);
      SplitSnoc(b', c, sep);
      ExtendAppend(Split(a, sep), Split(b', sep), c, sep);
    }
  }

  /** Replacing every `from` by `to` (which the text lacks) turns the
      `from`-fields into the `to`-fields. */
  lemma {:induction false} SplitReplaced(s: string, from: char, to: char)
    requires Free(s, to) && from != to
    ensures Split(ReplaceChar(s, from, to), to) == Split(s, from)
    decreases |s|
  {
    if s != [] {
      var t := ReplaceChar(s, from, to);
      assert t[..|t| - 1] == ReplaceChar(s[..|s| - 1], from, to);
      SplitReplaced(s[..|s| - 1], from, to);
    }
  }

  // ---------------------------------------------------------------------
  // Maven ids

  /** `":" + classifier` when there is one, else nothing. */
  function ClassifierPart(classifier: Option<string>, lead: string): (r: string)
    ensures classifier.None? ==> r == []
    ensures classifier.Some? ==> r == lead + classifier.value
  {
    if classifier.Some? then lead + classifier.value else []
  }

  /** group:artifact:type[:classifier]:version. With no ':' inside its
      fields, the id splits back into them: four fields without a
      classifier, five with one. */
  function LongId(group: string, artifact: string, typ: string, classifier: Option<string>, version: string): (r: string)
    ensures && Free(group, ':') && Free(artifact, ':') && Free(typ, ':') && Free(version, ':')
            && (classifier.Some? ==> Free(classifier.value, ':'))
            ==> Split(r, ':') == LongIdFields(group, artifact, typ, classifier, version)
  {
    var r := group + ":" + artifact + ":" + typ + ClassifierPart(classifier, ":") + ":" + version;
    if && Free(group, ':') && Free(artifact, ':') && Free(typ, ':') && Free(version, ':')
       && (classifier.Some? ==> Free(classifier.value, ':'))
    then LongIdSplits(group, artifact, typ, classifier, version); r
    else r
  }

  /** The fields the long id is made of. */
  function LongIdFields(group: string, artifact: string, typ: string, classifier: Option<string>, version: string): seq<string>
  {
    [group, artifact, typ] + (if classifier.Some? then [classifier.value] else []) + [version]
  }

  /** Appending a separator and a field without separators appends that
      field. */
  lemma SplitJoin(a: string, b: string, sep: char)
    requires Free(b, sep)
    ensures Split(a + [sep] + b, sep) == Split(a, sep) + [b]
  {
    SplitAround(a, b, sep);
    SplitFree(b, sep);
  }

  /** The splitting step behind `LongId`. */
  lemma LongIdSplits(group: string, artifact: string, typ: string, classifier: Option<string>, version: string)
    requires Free(group, ':') && Free(artifact, ':') && Free(typ, ':') && Free(version, ':')
    requires classifier.Some? ==> Free(classifier.value, ':')
    ensures Split(group + ":" + artifact + ":" + typ + ClassifierPart(classifier, ":") + ":" + version, ':')
            == LongIdFields(group, artifact, typ, classifier, version)
  {
    SplitFree(group, ':');
    var head := group + ":" + artifact;
    SplitJoin(group, artifact, ':');
    var mid := head + ":" + typ;
    SplitJoin(head, typ, ':');
    assert Split(mid, ':') == [group, artifact, typ];
    var withClassifier := mid + ClassifierPart(classifier, ":");
    assert group + ":" + artifact + ":" + typ + ClassifierPart(classifier, ":") + ":" + version
           == withClassifier + ":" + version;
    SplitJoin(withClassifier, version, ':');
    if classifier.Some? {
      assert withClassifier == mid + ":" + classifier.value;
      SplitJoin(mid, classifier.value, ':');
      assert Split(withClassifier, ':') == [group, artifact, typ, classifier.value];
    } else {
      assert withClassifier == mid;
    }
  }

  /** group:artifact:version. With no ':' inside its fields, the id splits
      back into them. */
  function ShortId(group: string, artifact: string, version: string): (r: string)
    ensures Free(group, ':') && Free(artifact, ':') && Free(version, ':') ==> Split(r, ':') == [group, artifact, version]
  {
    if Free(group, ':') && Free(artifact, ':') && Free(version, ':')
    then ShortIdSplits(group, artifact, version); group + ":" + artifact + ":" + version
    else group + ":" + artifact + ":" + version
  }

  /** The splitting step behind `ShortId`. */
  lemma ShortIdSplits(group: string, artifact: string, version: string)
    requires Free(group, ':') && Free(artifact, ':') && Free(version, ':')
    ensures Split(group + ":" + artifact + ":" + version, ':') == [group, artifact, version]
  {
    SplitFree(group, ':');
    SplitJoin(group, artifact, ':');
    SplitJoin(group + ":" + artifact, version, ':');
  }

  // ---------------------------------------------------------------------
  // Repository paths

  /** group (dots as '/') / artifactId / dirVersion / artifactId-fileVersion[-classifier].jar.
      With no '/' inside the group, the artifact id, the versions and the
      classifier, the path's '/'-fields are the group's '.'-fields, then the
      artifact id, the directory version and the jar's file name. */
  function RepoPath(group: string, artifactId: string, dirVersion: string, fileVersion: string,
                    classifier: Option<string>): (r: string)
    ensures EndsWith(r, ".jar")
    ensures && Free(group, '/') && Free(artifactId, '/') && Free(dirVersion, '/') && Free(fileVersion, '/')
            && (classifier.Some? ==> Free(classifier.value, '/'))
            ==> Split(r, '/') == Split(group, '.') + [artifactId, dirVersion, JarName(artifactId, fileVersion, classifier)]
  {
    var r := ReplaceChar(group, '.', '/') + "/" + artifactId + "/" + dirVersion + "/"
             + JarName(artifactId, fileVersion, classifier);
    if && Free(group, '/') && Free(artifactId, '/') && Free(dirVersion, '/') && Free(fileVersion, '/')
       && (classifier.Some? ==> Free(classifier.value, '/'))
    then RepoPathSplits(group, artifactId, dirVersion, fileVersion, classifier); r
    else r
  }

  /** The file name of an artefact's jar. */
  function JarName(artifactId: string, fileVersion: string, classifier: Option<string>): (r: string)
    ensures EndsWith(r, ".jar")
  {
    artifactId + "-" + fileVersion + ClassifierPart(classifier, "-") + ".jar"
  }

  /** The splitting step behind `RepoPath`. */
  lemma RepoPathSplits(group: string, artifactId: string, dirVersion: string, fileVersion: string,
                       classifier: Option<string>)
    requires Free(group, '/') && Free(artifactId, '/') && Free(dirVersion, '/') && Free(fileVersion, '/')
    requires classifier.Some? ==> Free(classifier.value, '/')
    ensures Split(ReplaceChar(group, '.', '/') + "/" + artifactId + "/" + dirVersion + "/"
                  + JarName(artifactId, fileVersion, classifier), '/')
            == Split(group, '.') + [artifactId, dirVersion, JarName(artifactId, fileVersion, classifier)]
  {
    var g := ReplaceChar(group, '.', '/');
    var name := JarName(artifactId, fileVersion, classifier);
    JarNameFree(artifactId, fileVersion, classifier);
    SplitReplaced(group, '.', '/');
    var fields := Split(group, '.');
    var p1 := g + "/" + artifactId;
    SplitJoin(g, artifactId, '/');
    assert Split(p1, '/') == fields + [artifactId];
    var p2 := p1 + "/" + dirVersion;
    SplitJoin(p1, dirVersion, '/');
    assert Split(p2, '/') == fields + [artifactId] + [dirVersion];
    SplitJoin(p2, name, '/');
    assert ReplaceChar(group, '.', '/') + "/" + artifactId + "/" + dirVersion + "/" + name == p2 + "/" + name;
    assert fields + [artifactId] + [dirVersion] + [name] == fields + [artifactId, dirVersion, name];
  }

  lemma FreeConcat(a: string, b: string, sep: char)
    requires Free(a, sep) && Free(b, sep)
    ensures Free(a + b, sep)
  {
  }

  /** The jar's file name has no '/' when its parts have none. */
  lemma JarNameFree(artifactId: string, fileVersion: string, classifier: Option<string>)
    requires Free(artifactId, '/') && Free(fileVersion, '/')
    requires classifier.Some? ==> Free(classifier.value, '/')
    ensures Free(JarName(artifactId, fileVersion, classifier), '/')
  {
    var c := ClassifierPart(classifier, "-");
    assert Free("-", '/') && Free(".jar", '/');
    FreeConcat(artifactId, "-", '/');
    FreeConcat(artifactId + "-", fileVersion, '/');
    if classifier.Some? {
      FreeConcat("-", classifier.value, '/');
    }
    FreeConcat(artifactId + "-" + fileVersion, c, '/');
    FreeConcat(artifactId + "-" + fileVersion + c, ".jar", '/');
  }
}
