/** JarHelper of io.github.project.classport.plugin: rewriting an extracted
    jar with metadata in every class file. Signature files are dropped,
    manifest sections lose their digests, and the entries are written
    directories first, then files, each group sorted by path. */
module JarHelper {
  import opened Wrappers
  import opened Bytes
  import opened JavaStrings

  const META_INF: string := "META-INF/"
  const SIG_PREFIX: string := "META-INF/SIG-"
  const MANIFEST_NAME: string := "META-INF/MANIFEST.MF"
  const DIGEST_SUFFIX: string := "-Digest"

  // ---------------------------------------------------------------------
  // Signature files

  /** isSignatureFile(filename): every signature file lives in META-INF/. */
  predicate IsSignatureFile(name: string): (b: bool)
    ensures b ==> StartsWith(name, META_INF)
  {
    SigPrefixInMetaInf(name);
    || StartsWith(name, SIG_PREFIX)
    || (StartsWith(name, META_INF) && (EndsWith(name, ".SF") || EndsWith(name, ".RSA") || EndsWith(name, ".DSA")))
  }

  /** "META-INF/SIG-" starts with "META-INF/". */
  lemma SigPrefixInMetaInf(name: string)
    ensures StartsWith(name, SIG_PREFIX) ==> StartsWith(name, META_INF)
  {
    if StartsWith(name, SIG_PREFIX) {
      assert SIG_PREFIX[..|META_INF|] == META_INF;
      assert name[..|META_INF|] == name[..|SIG_PREFIX|][..|META_INF|];
    }
  }

  /** The manifest is not a signature file. */
  lemma ManifestIsNotSignature()
    ensures !IsSignatureFile(MANIFEST_NAME)
  {
    var m := MANIFEST_NAME;
    assert m[..|SIG_PREFIX|] != SIG_PREFIX by { assert m[9] != SIG_PREFIX[9]; }
    assert m[|m| - 3..] != ".SF" by { assert m[|m| - 1] != 'F' || m[|m| - 2] != 'S'; }
    assert m[|m| - 4..] != ".RSA" by { assert m[|m| - 1] != 'A'; }
    assert m[|m| - 4..] != ".DSA" by { assert m[|m| - 1] != 'A'; }
  }

  // ---------------------------------------------------------------------
  // The unsigned manifest

  /** A manifest section's attributes, as (name, value) pairs in iteration
      order. */
  type Attributes = seq<(string, string)>

  /** A manifest: its main attributes and its per-entry sections, in
      iteration order. */
  datatype Manifest = Manifest(main: Attributes, entries: seq<(string, Attributes)>)

  /** The attributes the inner loop keeps: those whose name does not end in
      "-Digest". */
  function NonDigest(attrs: Attributes): (r: Attributes)
    ensures |r| <= |attrs|
  {
    if attrs == [] then []
    else
      var p := attrs[|attrs| - 1];
      NonDigest(attrs[..|attrs| - 1]) + (if EndsWith(p.0, DIGEST_SUFFIX) then [] else [p])
  }

  /** The sections the outer loop keeps: each with its non-digest attributes,
      dropped when none are left. */
  function UnsignedEntries(entries: seq<(string, Attributes)>): (r: seq<(string, Attributes)>)
    ensures |r| <= |entries|
  {
    if entries == [] then []
    else
      var e := entries[|entries| - 1];
      var kept := NonDigest(e.1);
      UnsignedEntries(entries[..|entries| - 1]) + (if kept == [] then [] else [(e.0, kept)])
  }

  /** getUnsignedManifest(m) as a value: the main attributes unchanged, and
      sections that unsigning again would leave as they are. */
  function UnsignedManifest(m: Manifest): (u: Manifest)
    ensures u.main == m.main
    ensures UnsignedEntries(u.entries) == u.entries
  {
    UnsignedEntriesIdempotent(m.entries);
    Manifest(m.main, UnsignedEntries(m.entries))
  }

  /** getUnsignedManifest(m): a copy whose entries are cleared and refilled
      by the two nested loops. */
  method GetUnsignedManifest(m: Manifest) returns (unsigned: Manifest)
    ensures unsigned == UnsignedManifest(m)
  {
    var entries: seq<(string, Attributes)> := [];
    var i := 0;
    while i < |m.entries|
      invariant 0 <= i <= |m.entries|
      invariant entries == UnsignedEntries(m.entries[..i])
    {
      var oldAttributes := m.entries[i].1;
      var newAttributes: Attributes := [];
      var j := 0;
      while j < |oldAttributes|
        invariant 0 <= j <= |oldAttributes|
        invariant newAttributes == NonDigest(oldAttributes[..j])
      {
        assert oldAttributes[..j + 1][..j] == oldAttributes[..j];
        if !EndsWith(oldAttributes[j].0, DIGEST_SUFFIX) {
          newAttributes := newAttributes + [oldAttributes[j]];
        }
        j := j + 1;
      }
      assert oldAttributes[..j] == oldAttributes;
      assert m.entries[..i + 1][..i] == m.entries[..i];
      if newAttributes != [] {
        entries := entries + [(m.entries[i].0, newAttributes)];
      }
      i := i + 1;
    }
    assert m.entries[..i] == m.entries;
    unsigned := Manifest(m.main, entries);
  }

  /** A kept attribute is exactly an attribute of the section whose name
      does not end in "-Digest"; the order is kept. */
  lemma {:induction false} NonDigestIff(attrs: Attributes, p: (string, string))
    ensures p in NonDigest(attrs) <==> p in attrs && !EndsWith(p.0, DIGEST_SUFFIX)
  {
    if attrs != [] {
      var init := attrs[..|attrs| - 1];
      NonDigestIff(init, p);
      assert attrs == init + [attrs[|attrs| - 1]];
    }
  }

  /** A section of the unsigned manifest is a section of the original under
      the same name, with exactly its non-digest attributes, and never
      empty; every section with a non-digest attribute is kept. */
  lemma {:induction false} UnsignedEntriesIff(entries: seq<(string, Attributes)>, name: string, attrs: Attributes)
    ensures (name, attrs) in UnsignedEntries(entries)
            <==> attrs != [] && exists orig :: (name, orig) in entries && attrs == NonDigest(orig)
  {
    if entries != [] {
      var init := entries[..|entries| - 1];
      var e := entries[|entries| - 1];
      UnsignedEntriesIff(init, name, attrs);
      assert entries == init + [e];
      if attrs != [] && exists orig :: (name, orig) in entries && attrs == NonDigest(orig) {
        var orig :| (name, orig) in entries && attrs == NonDigest(orig);
        if (name, orig) != e {
          assert (name, orig) in init;
        }
      }
    }
  }

  /** Digests removed stay removed: NonDigest is idempotent. */
  lemma {:induction false} NonDigestIdempotent(attrs: Attributes)
    ensures NonDigest(NonDigest(attrs)) == NonDigest(attrs)
  {
    if attrs != [] {
      var init := attrs[..|attrs| - 1];
      var p := attrs[|attrs| - 1];
      NonDigestIdempotent(init);
      var tail: Attributes := if EndsWith(p.0, DIGEST_SUFFIX) then [] else [p];
      NonDigestConcat(NonDigest(init), tail);
    }
  }

  lemma {:induction false} NonDigestConcat(a: Attributes, b: Attributes)
    ensures NonDigest(a + b) == NonDigest(a) + NonDigest(b)
    decreases |b|
  {
    if b == [] {
      assert a + b == a;
    } else {
      var b' := b[..|b| - 1];
      assert (a + b)[..|a + b| - 1] == a + b';
      NonDigestConcat(a, b');
    }
  }

  lemma {:induction false} UnsignedEntriesIdempotent(entries: seq<(string, Attributes)>)
    ensures UnsignedEntries(UnsignedEntries(entries)) == UnsignedEntries(entries)
  {
    if entries != [] {
      var init := entries[..|entries| - 1];
      var e := entries[|entries| - 1];
      UnsignedEntriesIdempotent(init);
      var kept := NonDigest(e.1);
      var tail: seq<(string, Attributes)> := if kept == [] then [] else [(e.0, kept)];
      UnsignedEntriesConcat(UnsignedEntries(init), tail);
      if kept != [] {
        NonDigestIdempotent(e.1);
        assert tail[..0] == [];
      }
    }
  }

  lemma {:induction false} UnsignedEntriesConcat(a: seq<(string, Attributes)>, b: seq<(string, Attributes)>)
    ensures UnsignedEntries(a + b) == UnsignedEntries(a) + UnsignedEntries(b)
    decreases |b|
  {
    if b == [] {
      assert a + b == a;
    } else {
      var b' := b[..|b| - 1];
      assert (a + b)[..|a + b| - 1] == a + b';
      UnsignedEntriesConcat(a, b');
    }
  }

  // ---------------------------------------------------------------------
  // Processing one extracted file

  /** A processed jar entry ready to be written. */
  datatype ProcessedEntry = ProcessedEntry(relPath: string, content: seq<byte>, isDirectory: bool)

  /** The body of embed's per-file lambda: a signature file is dropped
      (Ok(None)), the manifest is parsed, unsigned and written back, a class
      file (by its header) goes through the metadata adder, anything else is
      copied as read. `parse` and `write` stand for new Manifest(in) and
      Manifest.write, `add` for new MetadataAdder(bytes).add(metadata); an
      Err from `parse` or `add` is the exception that leaves the lambda and
      aborts embed (the RuntimeException wrapper is not told apart). */
  function ProcessFile(relPath: string, content: seq<byte>, parse: seq<byte> -> Result<Manifest>,
                       write: Manifest -> seq<byte>, add: seq<byte> -> Result<seq<byte>>): (r: Result<Option<ProcessedEntry>>)
    ensures IsSignatureFile(relPath) ==> r == Ok(None)
    ensures r.Ok? && r.value.Some? ==> r.value.value.relPath == relPath && !r.value.value.isDirectory
    ensures r.Err? ==> !IsSignatureFile(relPath)
                       && (if relPath == MANIFEST_NAME then parse(content) == Err(r.error) else add(content) == Err(r.error))
  {
    if IsSignatureFile(relPath) then Ok(None)
    else if relPath == MANIFEST_NAME then
      var m := parse(content);
      if m.Err? then Err(m.error) else Ok(Some(ProcessedEntry(relPath, write(UnsignedManifest(m.value)), false)))
    else
      var header := ReadNBytes(content, 4);
      assert header + content[|header|..] == content;
      if |header| != 4 || header != MAGIC_BYTES then Ok(Some(ProcessedEntry(relPath, header + content[|header|..], false)))
      else
        var added := add(header + content[|header|..]);
        if added.Err? then Err(added.error) else Ok(Some(ProcessedEntry(relPath, added.value, false)))
  }

  /** Content is rewritten only behind the class-file magic (and for the
      manifest); any other file is reproduced byte for byte and never fails,
      and a class file fails exactly when the metadata adder does. */
  lemma ProcessFileContent(relPath: string, content: seq<byte>, parse: seq<byte> -> Result<Manifest>,
                           write: Manifest -> seq<byte>, add: seq<byte> -> Result<seq<byte>>)
    requires !IsSignatureFile(relPath) && relPath != MANIFEST_NAME
    ensures !IsClassFile(content) ==> ProcessFile(relPath, content, parse, write, add) == Ok(Some(ProcessedEntry(relPath, content, false)))
    ensures IsClassFile(content) ==>
              ProcessFile(relPath, content, parse, write, add)
              == if add(content).Err? then Err(add(content).error) else Ok(Some(ProcessedEntry(relPath, add(content).value, false)))
  {
    var header := ReadNBytes(content, 4);
    assert header + content[|header|..] == content;
  }

  // ---------------------------------------------------------------------
  // The processedEntries map

  /** No two entries share a path. */
  predicate DistinctPaths(s: seq<ProcessedEntry>)
  {
    forall i, j :: 0 <= i < |s| && 0 <= j < |s| && i != j ==> s[i].relPath != s[j].relPath
  }

  /** Distinct paths stay distinct without the first entry, and none of the
      others has the first one's path. */
  lemma DistinctTail(s: seq<ProcessedEntry>)
    requires s != []
    ensures DistinctPaths(s) ==> DistinctPaths(s[1..]) && forall x :: x in s[1..] ==> x.relPath != s[0].relPath
  {
    if DistinctPaths(s) {
      forall x | x in s[1..] ensures x.relPath != s[0].relPath {
        var j :| 0 <= j < |s[1..]| && s[1..][j] == x;
        assert s[j + 1] == x;
      }
    }
  }

  /** An entry whose path is new keeps the paths distinct. */
  lemma DistinctPrepend(e: ProcessedEntry, rest: seq<ProcessedEntry>)
    ensures DistinctPaths(rest) && (forall x :: x in rest ==> x.relPath != e.relPath) ==> DistinctPaths([e] + rest)
  {
    if DistinctPaths(rest) && (forall x :: x in rest ==> x.relPath != e.relPath) {
      var s := [e] + rest;
      forall i, j | 0 <= i < |s| && 0 <= j < |s| && i != j ensures s[i].relPath != s[j].relPath {
        if i > 0 && j > 0 {
          assert s[i] == rest[i - 1] && s[j] == rest[j - 1];
        } else if i == 0 {
          assert s[j] == rest[j - 1] && s[j] in rest;
        } else {
          assert s[i] == rest[i - 1] && s[i] in rest;
        }
      }
    }
  }

  /** processedEntries.put(e.relPath, e) on the map's entries: the entry for
      that path is replaced, or the entry is added. */
  function Put(s: seq<ProcessedEntry>, e: ProcessedEntry): (r: seq<ProcessedEntry>)
    ensures DistinctPaths(s) ==> DistinctPaths(r)
    ensures DistinctPaths(s) ==> forall x :: x in r <==> x == e || (x in s && x.relPath != e.relPath)
  {
    if s == [] then [e]
    else if s[0].relPath == e.relPath then
      assert s == [s[0]] + s[1..];
      assert DistinctPaths(s) ==> forall x :: x in s[1..] ==> x.relPath != e.relPath;
      [e] + s[1..]
    else
      var rest := Put(s[1..], e);
      assert s == [s[0]] + s[1..];
      assert DistinctPaths(s) ==> DistinctPaths(s[1..]) && forall x :: x in rest ==> x.relPath != s[0].relPath;
      [s[0]] + rest
  }

  // ---------------------------------------------------------------------
  // Ordering by path

  /** a.compareTo(b) < 0: lexicographic by characters, a proper prefix first. */
  predicate PathLess(a: string, b: string)
  {
    if a == [] then b != []
    else b != [] && (a[0] < b[0] || (a[0] == b[0] && PathLess(a[1..], b[1..])))
  }

  lemma {:induction false} PathLessIrreflexive(a: string)
    ensures !PathLess(a, a)
  {
    if a != [] {
      PathLessIrreflexive(a[1..]);
    }
  }

  lemma {:induction false} PathLessTransitive(a: string, b: string, c: string)
    requires PathLess(a, b) && PathLess(b, c)
    ensures PathLess(a, c)
  {
    if a != [] && a[0] == b[0] && b[0] == c[0] {
      PathLessTransitive(a[1..], b[1..], c[1..]);
    }
  }

  /** Two different paths are ordered one way or the other. */
  lemma {:induction false} PathLessTotal(a: string, b: string)
    ensures a == b || PathLess(a, b) || PathLess(b, a)
  {
    if a != [] && b != [] && a[0] == b[0] {
      PathLessTotal(a[1..], b[1..]);
      if a[1..] == b[1..] {
        assert a == [a[0]] + a[1..] && b == [b[0]] + b[1..];
      }
    }
  }

  /** Strictly increasing paths. */
  predicate SortedByPath(s: seq<ProcessedEntry>)
  {
    forall i, j :: 0 <= i < j < |s| ==> PathLess(s[i].relPath, s[j].relPath)
  }

  /** One insertion step of the sort: the entry is added, nothing else. */
  function Insert(e: ProcessedEntry, s: seq<ProcessedEntry>): (r: seq<ProcessedEntry>)
    ensures multiset(r) == multiset(s) + multiset{e}
  {
    if s == [] then [e]
    else
      assert s == [s[0]] + s[1..];
      if PathLess(s[0].relPath, e.relPath) then [s[0]] + Insert(e, s[1..])
      else [e] + s
  }

  /** Every entry of s has a path after p. */
  predicate Above(p: string, s: seq<ProcessedEntry>)
  {
    forall y :: y in s ==> PathLess(p, y.relPath)
  }

  lemma SortedCons(x: ProcessedEntry, t: seq<ProcessedEntry>)
    requires SortedByPath(t) && Above(x.relPath, t)
    ensures SortedByPath([x] + t)
  {
    forall i, j | 0 <= i < j < |[x] + t|
      ensures PathLess(([x] + t)[i].relPath, ([x] + t)[j].relPath)
    {
      if i == 0 {
        assert ([x] + t)[j] == t[j - 1];
        assert t[j - 1] in t;
      } else {
        assert ([x] + t)[i] == t[i - 1] && ([x] + t)[j] == t[j - 1];
      }
    }
  }

  lemma SortedTail(s: seq<ProcessedEntry>)
    requires SortedByPath(s) && s != []
    ensures SortedByPath(s[1..]) && Above(s[0].relPath, s[1..])
  {
    forall y | y in s[1..]
      ensures PathLess(s[0].relPath, y.relPath)
    {
      var k :| 0 <= k < |s[1..]| && s[1..][k] == y;
      assert s[k + 1] == y;
    }
  }

  lemma {:induction false} InsertSorted(e: ProcessedEntry, s: seq<ProcessedEntry>)
    requires SortedByPath(s)
    requires forall x :: x in s ==> x.relPath != e.relPath
    ensures SortedByPath(Insert(e, s))
    ensures multiset(Insert(e, s)) == multiset(s) + multiset{e}
  {
    if s == [] {
    } else {
      assert s == [s[0]] + s[1..];
      SortedTail(s);
      if PathLess(s[0].relPath, e.relPath) {
        InsertSorted(e, s[1..]);
        var t := Insert(e, s[1..]);
        assert Above(s[0].relPath, t) by {
          forall y | y in t
            ensures PathLess(s[0].relPath, y.relPath)
          {
            assert y in multiset(t);
          }
        }
        SortedCons(s[0], t);
      } else {
        PathLessTotal(s[0].relPath, e.relPath);
        assert Above(e.relPath, s) by {
          forall y | y in s
            ensures PathLess(e.relPath, y.relPath)
          {
            if y != s[0] {
              assert y in s[1..];
              PathLessTransitive(e.relPath, s[0].relPath, y.relPath);
            }
          }
        }
        SortedCons(e, s);
      }
    }
  }

  /** The stream's sorted(by relPath): an insertion sort, which for distinct
      paths gives the one strictly increasing arrangement (SortedUnique). */
  function SortByPath(s: seq<ProcessedEntry>): (r: seq<ProcessedEntry>)
    ensures multiset(r) == multiset(s)
  {
    if s == [] then [] else
      assert s == [s[0]] + s[1..];
      Insert(s[0], SortByPath(s[1..]))
  }

  lemma {:induction false} SortByPathSorted(s: seq<ProcessedEntry>)
    requires DistinctPaths(s)
    ensures SortedByPath(SortByPath(s))
    ensures multiset(SortByPath(s)) == multiset(s)
  {
    if s != [] {
      SortByPathSorted(s[1..]);
      var t := SortByPath(s[1..]);
      forall x | x in t
        ensures x.relPath != s[0].relPath
      {
        assert x in multiset(s[1..]);
        var k :| 0 <= k < |s[1..]| && s[1..][k] == x;
        assert s[k + 1] == x;
      }
      InsertSorted(s[0], t);
      assert s == [s[0]] + s[1..];
    }
  }

  /** Strictly increasing arrangements of the same entries are equal, so the
      written order does not depend on the map's iteration order. */
  /** Two sorted sequences with the same elements start alike. */
  lemma SortedHeads(s: seq<ProcessedEntry>, t: seq<ProcessedEntry>)
    requires SortedByPath(s) && SortedByPath(t)
    requires multiset(s) == multiset(t)
    requires s != [] && t != []
    ensures s[0] == t[0]
  {
    assert s[0] in multiset(t) && t[0] in multiset(s);
    if s[0] != t[0] {
      var j :| 0 <= j < |t| && t[j] == s[0];
      var i :| 0 <= i < |s| && s[i] == t[0];
      assert PathLess(t[0].relPath, s[0].relPath);
      assert PathLess(s[0].relPath, t[0].relPath);
      PathLessTransitive(s[0].relPath, t[0].relPath, s[0].relPath);
      PathLessIrreflexive(s[0].relPath);
    }
  }

  lemma {:induction false} SortedUnique(s: seq<ProcessedEntry>, t: seq<ProcessedEntry>)
    requires SortedByPath(s) && SortedByPath(t)
    requires multiset(s) == multiset(t)
    ensures s == t
  {
    if s == [] {
      assert |t| == |multiset(t)| == 0;
    } else {
      assert |t| == |multiset(s)| > 0;
      SortedHeads(s, t);
      assert s == [s[0]] + s[1..] && t == [t[0]] + t[1..];
      assert multiset(s) == multiset{s[0]} + multiset(s[1..]);
      assert multiset(t) == multiset{t[0]} + multiset(t[1..]);
      assert s[0] == t[0];
      assert multiset(s[1..]) == multiset(s) - multiset{s[0]};
      assert multiset(t[1..]) == multiset(t) - multiset{t[0]};
      SortedTail(s);
      SortedTail(t);
      SortedUnique(s[1..], t[1..]);
    }
  }

  // ---------------------------------------------------------------------
  // embed

  /** The per-file loop: each non-signature file's processed entry, put into
      the map under its path; the first file whose processing throws aborts
      the loop. */
  function CollectFiles(files: seq<(string, seq<byte>)>, parse: seq<byte> -> Result<Manifest>,
                        write: Manifest -> seq<byte>, add: seq<byte> -> Result<seq<byte>>): (r: Result<seq<ProcessedEntry>>)
    ensures r.Ok? ==> DistinctPaths(r.value)
    ensures r.Ok? ==> forall x :: x in r.value ==> !x.isDirectory && !IsSignatureFile(x.relPath)
  {
    if files == [] then Ok([])
    else
      var init := CollectFiles(files[..|files| - 1], parse, write, add);
      var f := files[|files| - 1];
      var processed := ProcessFile(f.0, f.1, parse, write, add);
      if init.Err? then init
      else if processed.Err? then Err(processed.error)
      else if processed.value.None? then init
      else Ok(Put(init.value, processed.value.value))
  }

  /** The loop completes exactly when no file's processing throws. */
  lemma {:induction false} CollectFilesOk(files: seq<(string, seq<byte>)>, parse: seq<byte> -> Result<Manifest>,
                                          write: Manifest -> seq<byte>, add: seq<byte> -> Result<seq<byte>>)
    ensures CollectFiles(files, parse, write, add).Ok?
            <==> forall k :: 0 <= k < |files| ==> ProcessFile(files[k].0, files[k].1, parse, write, add).Ok?
  {
    if files != [] {
      var n := |files| - 1;
      CollectFilesOk(files[..n], parse, write, add);
      assert forall k :: 0 <= k < n ==> files[..n][k] == files[k];
    }
  }

  /** The directory loop: an entry named after each directory with a
      trailing '/', put into the map. */
  function CollectDirs(s: seq<ProcessedEntry>, dirs: seq<string>): (r: seq<ProcessedEntry>)
    ensures DistinctPaths(s) ==> DistinctPaths(r)
    ensures DistinctPaths(s) ==> forall x :: x in r ==> x in s || (x.isDirectory && x.content == [])
  {
    if dirs == [] then s
    else
      var init := CollectDirs(s, dirs[..|dirs| - 1]);
      Put(init, ProcessedEntry(dirs[|dirs| - 1] + "/", [], true))
  }

  /** The directory entries, in map order. */
  function DirectoryEntries(s: seq<ProcessedEntry>): (r: seq<ProcessedEntry>)
    ensures forall x :: x in r <==> x in s && x.isDirectory
    ensures DistinctPaths(s) ==> DistinctPaths(r)
  {
    if s == [] then []
    else
      var rest := DirectoryEntries(s[1..]);
      assert s == [s[0]] + s[1..];
      DistinctTail(s);
      DistinctPrepend(s[0], rest);
      (if s[0].isDirectory then [s[0]] else []) + rest
  }

  /** The file entries, in map order. */
  function FileEntries(s: seq<ProcessedEntry>): (r: seq<ProcessedEntry>)
    ensures forall x :: x in r <==> x in s && !x.isDirectory
    ensures DistinctPaths(s) ==> DistinctPaths(r)
  {
    if s == [] then []
    else
      var rest := FileEntries(s[1..]);
      assert s == [s[0]] + s[1..];
      DistinctTail(s);
      DistinctPrepend(s[0], rest);
      (if s[0].isDirectory then [] else [s[0]]) + rest
  }

  /** The order the entries are written in: directories sorted by path, then
      files sorted by path. */
  function WriteOrder(s: seq<ProcessedEntry>): (w: seq<ProcessedEntry>)
    ensures forall x :: x in w <==> x in s
  {
    assert forall x :: x in SortByPath(DirectoryEntries(s)) <==> x in multiset(DirectoryEntries(s));
    assert forall x :: x in SortByPath(FileEntries(s)) <==> x in multiset(FileEntries(s));
    SortByPath(DirectoryEntries(s)) + SortByPath(FileEntries(s))
  }

  /** The message for a target that exists; `target` is the target File's
      path, as its toString() gives it. */
  function TargetExists(target: string): string
  {
    "File or directory " + target + " already exists. Skipping embed..."
  }

  const SOURCE_IS_DIRECTORY: string := "Embedding metadata requires a jar as source. Skipping embed..."

  /** embed(metadata) after the jar has been extracted: `files` are the
      extracted files (path, content) and `dirs` the extracted directories,
      in walk order; the result is the written entries, in order. */
  function EmbedSpec(target: string, overwrite: bool, targetExists: bool, sourceIsDirectory: bool,
                     files: seq<(string, seq<byte>)>, dirs: seq<string>, parse: seq<byte> -> Result<Manifest>,
                     write: Manifest -> seq<byte>, add: seq<byte> -> Result<seq<byte>>): (r: Result<seq<ProcessedEntry>>)
    ensures r.Ok? <==> (overwrite || !targetExists) && !sourceIsDirectory && CollectFiles(files, parse, write, add).Ok?
    ensures r.Ok? ==> forall x :: x in r.value && !x.isDirectory ==> !IsSignatureFile(x.relPath)
  {
    if targetExists && !overwrite then Err(IOError(TargetExists(target)))
    else if sourceIsDirectory then Err(IOError(SOURCE_IS_DIRECTORY))
    else
      var collected := CollectFiles(files, parse, write, add);
      if collected.Err? then Err(collected.error)
      else Ok(WriteOrder(CollectDirs(collected.value, dirs)))
  }

  class JarHelper {
    const target: string
    const overwrite: bool

    /** JarHelper(source, target, overwrite); the source is only read by
        the jar extraction, which is not part of this model. */
    constructor (target: string, overwrite: bool)
      ensures this.target == target && this.overwrite == overwrite
    {
      this.target := target;
      this.overwrite := overwrite;
    }

    /** JarHelper(source, target): no overwriting. */
    constructor WithoutOverwrite(target: string)
      ensures this.target == target && !overwrite
    {
      this.target := target;
      overwrite := false;
    }

    /** embed(metadata). */
    method Embed(targetExists: bool, sourceIsDirectory: bool, files: seq<(string, seq<byte>)>, dirs: seq<string>,
                 parse: seq<byte> -> Result<Manifest>, write: Manifest -> seq<byte>, add: seq<byte> -> Result<seq<byte>>)
      returns (r: Result<seq<ProcessedEntry>>)
      ensures r == EmbedSpec(target, overwrite, targetExists, sourceIsDirectory, files, dirs, parse, write, add)
    {
      if targetExists && !overwrite {
        return Err(IOError(TargetExists(target)));
      }
      if sourceIsDirectory {
        return Err(IOError(SOURCE_IS_DIRECTORY));
      }
      var processedEntries: seq<ProcessedEntry> := [];
      var i := 0;
      while i < |files|
        invariant 0 <= i <= |files|
        invariant CollectFiles(files[..i], parse, write, add) == Ok(processedEntries)
      {
        assert files[..i + 1][..i] == files[..i];
        var relPath := files[i].0;
        var entry := ProcessFile(relPath, files[i].1, parse, write, add);
        if entry.Err? {
          assert CollectFiles(files[..i + 1], parse, write, add) == Err(entry.error);
          CollectFilesErrPrefix(files, i + 1, parse, write, add);
          return Err(entry.error);
        }
        assert CollectFiles(files[..i + 1], parse, write, add)
               == if entry.value.None? then Ok(processedEntries) else Ok(Put(processedEntries, entry.value.value));
        if !IsSignatureFile(relPath) {
          processedEntries := Put(processedEntries, entry.value.value);
        }
        i := i + 1;
      }
      assert files[..i] == files;
      ghost var collected := processedEntries;
      var k := 0;
      while k < |dirs|
        invariant 0 <= k <= |dirs|
        invariant processedEntries == CollectDirs(collected, dirs[..k])
      {
        assert dirs[..k + 1][..k] == dirs[..k];
        var entry := ProcessedEntry(dirs[k] + "/", [], true);
        assert CollectDirs(collected, dirs[..k + 1]) == Put(processedEntries, entry);
        processedEntries := Put(processedEntries, entry);
        k := k + 1;
      }
      assert dirs[..k] == dirs;
      var directories := SortByPath(DirectoryEntries(processedEntries));
      var fileEntries := SortByPath(FileEntries(processedEntries));
      r := Ok(directories + fileEntries);
    }
  }

  // ---------------------------------------------------------------------
  // Properties of the written jar

  /** Directories come first, each group in strictly increasing path order,
      and exactly the map's entries are written. */
  lemma WriteOrderShape(s: seq<ProcessedEntry>)
    requires DistinctPaths(s)
    ensures var w := WriteOrder(s);
      && (forall i, j :: 0 <= i < j < |w| && w[j].isDirectory ==> w[i].isDirectory)
      && (forall i, j :: 0 <= i < j < |w| && w[i].isDirectory == w[j].isDirectory ==> PathLess(w[i].relPath, w[j].relPath))
      && (forall x :: x in w <==> x in s)
  {
    var d := SortByPath(DirectoryEntries(s));
    var f := SortByPath(FileEntries(s));
    SortByPathSorted(DirectoryEntries(s));
    SortByPathSorted(FileEntries(s));
    SameMembers(d, DirectoryEntries(s));
    SameMembers(f, FileEntries(s));
    GroupsInOrder(d, f);
  }

  /** Equal multisets have equal members. */
  lemma SameMembers(s: seq<ProcessedEntry>, t: seq<ProcessedEntry>)
    requires multiset(s) == multiset(t)
    ensures forall x :: x in s <==> x in t
  {
    forall x
      ensures x in s <==> x in t
    {
      assert x in s <==> x in multiset(s);
      assert x in t <==> x in multiset(t);
    }
  }

  /** Two sorted groups, directories then files, put one after the other. */
  lemma GroupsInOrder(d: seq<ProcessedEntry>, f: seq<ProcessedEntry>)
    requires forall x :: x in d ==> x.isDirectory
    requires forall x :: x in f ==> !x.isDirectory
    requires SortedByPath(d) && SortedByPath(f)
    ensures var w := d + f;
      && (forall i, j :: 0 <= i < j < |w| && w[j].isDirectory ==> w[i].isDirectory)
      && (forall i, j :: 0 <= i < j < |w| && w[i].isDirectory == w[j].isDirectory ==> PathLess(w[i].relPath, w[j].relPath))
  {
    var w := d + f;
    forall i, j | 0 <= i < j < |w| && w[j].isDirectory
      ensures w[i].isDirectory
    {
      assert j < |d|;
      assert w[i] == d[i];
    }
    forall i, j | 0 <= i < j < |w| && w[i].isDirectory == w[j].isDirectory
      ensures PathLess(w[i].relPath, w[j].relPath)
    {
      if j < |d| {
        assert w[i] == d[i] && w[j] == d[j];
      } else if i >= |d| {
        assert w[i] == f[i - |d|] && w[j] == f[j - |d|];
      } else {
        assert false;
      }
    }
  }

  /** The written jar depends only on which entries were collected, not on
      the order the map yields them in. */
  lemma WriteOrderIgnoresMapOrder(s: seq<ProcessedEntry>, t: seq<ProcessedEntry>)
    requires DistinctPaths(s) && DistinctPaths(t)
    requires forall x :: x in s <==> x in t
    ensures WriteOrder(s) == WriteOrder(t)
  {
    SortedSameMembers(DirectoryEntries(s), DirectoryEntries(t));
    SortedSameMembers(FileEntries(s), FileEntries(t));
  }

  /** Sorting two path-distinct sequences with the same members gives the
      same sequence. */
  lemma SortedSameMembers(s: seq<ProcessedEntry>, t: seq<ProcessedEntry>)
    requires DistinctPaths(s) && DistinctPaths(t)
    requires forall x :: x in s <==> x in t
    ensures SortByPath(s) == SortByPath(t)
  {
    SortByPathSorted(s);
    SortByPathSorted(t);
    DistinctMultiset(s, t);
    SortedUnique(SortByPath(s), SortByPath(t));
  }

  /** Without repeated entries, the same members means the same multiset. */
  lemma DistinctMultiset(s: seq<ProcessedEntry>, t: seq<ProcessedEntry>)
    requires DistinctPaths(s) && DistinctPaths(t)
    requires forall x :: x in s <==> x in t
    ensures multiset(s) == multiset(t)
  {
    forall x
      ensures multiset(s)[x] == multiset(t)[x]
    {
      OnceAtMost(s, x);
      OnceAtMost(t, x);
    }
  }

  lemma {:induction false} OnceAtMost(s: seq<ProcessedEntry>, x: ProcessedEntry)
    requires DistinctPaths(s)
    ensures multiset(s)[x] == if x in s then 1 else 0
  {
    if s != [] {
      assert s == [s[0]] + s[1..];
      assert DistinctPaths(s[1..]);
      OnceAtMost(s[1..], x);
      if x == s[0] {
        assert x !in s[1..] by {
          forall k | 0 <= k < |s[1..]|
            ensures s[1..][k] != x
          {
            assert s[1..][k] == s[k + 1];
          }
        }
      }
    }
  }

  /** Every directory gets its '/'-terminated entry. */
  lemma {:induction false} CollectDirsHasDirs(s: seq<ProcessedEntry>, dirs: seq<string>)
    requires DistinctPaths(s)
    ensures forall d :: d in dirs ==> ProcessedEntry(d + "/", [], true) in CollectDirs(s, dirs)
  {
    if dirs != [] {
      var init := dirs[..|dirs| - 1];
      CollectDirsHasDirs(s, init);
      assert dirs == init + [dirs[|dirs| - 1]];
    }
  }

  /** A collected file entry survives the directory loop: its path does not
      end in '/'. */
  lemma {:induction false} CollectDirsKeeps(s: seq<ProcessedEntry>, dirs: seq<string>, x: ProcessedEntry)
    requires DistinctPaths(s) && x in s
    requires !EndsWith(x.relPath, "/")
    ensures x in CollectDirs(s, dirs)
  {
    if dirs != [] {
      var d := dirs[|dirs| - 1];
      CollectDirsKeeps(s, dirs[..|dirs| - 1], x);
      assert EndsWith(d + "/", "/");
    }
  }

  /** The file is a signature file or its processing succeeded and its
      processed entry is in `w`. */
  predicate Kept(f: (string, seq<byte>), w: seq<ProcessedEntry>, parse: seq<byte> -> Result<Manifest>,
                 write: Manifest -> seq<byte>, add: seq<byte> -> Result<seq<byte>>)
  {
    !IsSignatureFile(f.0) ==>
      var p := ProcessFile(f.0, f.1, parse, write, add);
      p.Ok? && p.value.Some? && p.value.value in w
  }

  /** Once a prefix of the files aborts the loop, so do all the files, with
      the same exception. */
  lemma {:induction false} CollectFilesErrPrefix(files: seq<(string, seq<byte>)>, n: nat, parse: seq<byte> -> Result<Manifest>,
                                                 write: Manifest -> seq<byte>, add: seq<byte> -> Result<seq<byte>>)
    requires n <= |files| && CollectFiles(files[..n], parse, write, add).Err?
    ensures CollectFiles(files, parse, write, add) == CollectFiles(files[..n], parse, write, add)
  {
    if n < |files| {
      var init := files[..|files| - 1];
      assert init[..n] == files[..n];
      CollectFilesErrPrefix(init, n, parse, write, add);
    } else {
      assert files[..n] == files;
    }
  }

  /** With distinct paths, when the loop completes every file that is not a
      signature file is collected, processed. */
  lemma {:induction false} CollectFilesHasFiles(files: seq<(string, seq<byte>)>, parse: seq<byte> -> Result<Manifest>,
                                                write: Manifest -> seq<byte>, add: seq<byte> -> Result<seq<byte>>)
    requires forall i, j :: 0 <= i < j < |files| ==> files[i].0 != files[j].0
    ensures CollectFiles(files, parse, write, add).Ok? ==>
            forall k :: 0 <= k < |files| ==> Kept(files[k], CollectFiles(files, parse, write, add).value, parse, write, add)
  {
    if files != [] && CollectFiles(files, parse, write, add).Ok? {
      var n := |files| - 1;
      var init := files[..n];
      CollectFilesHasFiles(init, parse, write, add);
      var before := CollectFiles(init, parse, write, add);
      var last := ProcessFile(files[n].0, files[n].1, parse, write, add);
      var after := CollectFiles(files, parse, write, add).value;
      assert before.Ok? && last.Ok?;
      assert after == if last.value.None? then before.value else Put(before.value, last.value.value);
      forall k | 0 <= k < |files|
        ensures Kept(files[k], after, parse, write, add)
      {
        if k == n {
          if last.value.Some? {
            assert last.value.value in Put(before.value, last.value.value);
          }
        } else {
          assert init[k] == files[k];
          assert files[k].0 != files[n].0;
          if last.value.Some? {
            KeptAfterPut(files[k], before.value, last.value.value, parse, write, add);
          }
        }
      }
    }
  }

  /** Putting an entry with another path keeps a collected file. */
  lemma KeptAfterPut(f: (string, seq<byte>), before: seq<ProcessedEntry>, e: ProcessedEntry,
                     parse: seq<byte> -> Result<Manifest>, write: Manifest -> seq<byte>, add: seq<byte> -> Result<seq<byte>>)
    requires DistinctPaths(before) && Kept(f, before, parse, write, add) && e.relPath != f.0
    ensures Kept(f, Put(before, e), parse, write, add)
  {
  }

  /** The written jar: embed completes exactly when no file's processing
      throws, and then directories come first and files after, each group in
      strictly increasing path order; every directory and every file that is
      not a signature file is written, the files processed, and no signature
      file is written. */
  lemma EmbedWrites(target: string, overwrite: bool, files: seq<(string, seq<byte>)>, dirs: seq<string>, parse: seq<byte> -> Result<Manifest>,
                    write: Manifest -> seq<byte>, add: seq<byte> -> Result<seq<byte>>)
    requires forall i, j :: 0 <= i < j < |files| ==> files[i].0 != files[j].0
    requires forall k :: 0 <= k < |files| ==> !EndsWith(files[k].0, "/")
    ensures EmbedSpec(target, overwrite, false, false, files, dirs, parse, write, add).Ok?
            <==> forall k :: 0 <= k < |files| ==> ProcessFile(files[k].0, files[k].1, parse, write, add).Ok?
    ensures EmbedSpec(target, overwrite, false, false, files, dirs, parse, write, add).Ok? ==>
      var w := EmbedSpec(target, overwrite, false, false, files, dirs, parse, write, add).value;
      && (forall i, j :: 0 <= i < j < |w| && w[j].isDirectory ==> w[i].isDirectory)
      && (forall i, j :: 0 <= i < j < |w| && w[i].isDirectory == w[j].isDirectory ==> PathLess(w[i].relPath, w[j].relPath))
      && (forall d :: d in dirs ==> ProcessedEntry(d + "/", [], true) in w)
      && (forall k :: 0 <= k < |files| ==> Kept(files[k], w, parse, write, add))
      && (forall x :: x in w && !x.isDirectory ==> !IsSignatureFile(x.relPath))
  {
    CollectFilesOk(files, parse, write, add);
    var c := CollectFiles(files, parse, write, add);
    if c.Ok? {
      var collected := c.value;
      var all := CollectDirs(collected, dirs);
      WriteOrderShape(all);
      CollectDirsHasDirs(collected, dirs);
      CollectFilesHasFiles(files, parse, write, add);
      forall k | 0 <= k < |files| && !IsSignatureFile(files[k].0)
        ensures Kept(files[k], all, parse, write, add)
      {
        assert Kept(files[k], collected, parse, write, add);
        CollectDirsKeeps(collected, dirs, ProcessFile(files[k].0, files[k].1, parse, write, add).value.value);
      }
    }
  }
}
