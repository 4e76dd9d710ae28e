/** ClassportAgent of tld.domain.me.classport.agent: a class-file
    transformer that records the annotation of every loaded class in an SBOM
    map, and the text the SBOM is written as at shutdown. */
module TldAgent {
  import opened Wrappers
  import opened Bytes
  import opened JavaStrings

  /** The annotation values the agent reads: four strings and the child ids
      (None: the array is null). */
  datatype Info = Info(id: string, artefact: string, group: string, version: string,
                       childIds: Option<seq<string>>)

  const ID_PREFIX: string := "\tid: "
  const ARTEFACT_PREFIX: string := "\tartefact: "
  const GROUP_PREFIX: string := "\tgroup: "
  const VERSION_PREFIX: string := "\tversion: "
  const DEPENDENCIES_LINE: string := "\tdependencies:"
  const DEPENDENCY_PREFIX: string := "\t\t"

  // ---------------------------------------------------------------------
  // The SBOM text

  /** The lines of one dependency block entry. */
  function DependencyLines(deps: seq<string>): (lines: seq<string>)
    ensures |lines| == |deps|
    ensures forall i :: 0 <= i < |deps| ==> lines[i] == DEPENDENCY_PREFIX + deps[i]
  {
    if deps == [] then [] else [DEPENDENCY_PREFIX + deps[0]] + DependencyLines(deps[1..])
  }

  /** The lines written for one class: its name with '/' replaced by '.',
      the four fields, and a dependency block only when there are child ids. */
  function EntryLines(name: string, info: Info): seq<string>
  {
    [ReplaceChar(name, '/', '.'), ID_PREFIX + info.id, ARTEFACT_PREFIX + info.artefact,
     GROUP_PREFIX + info.group, VERSION_PREFIX + info.version]
    + if info.childIds.Some? && |info.childIds.value| > 0
      then [DEPENDENCIES_LINE] + DependencyLines(info.childIds.value)
      else []
  }

  /** The lines of the whole SBOM, entry after entry in map order. */
  function Render(entries: seq<(string, Info)>): (lines: seq<string>)
    ensures |lines| >= 5 * |entries|
    ensures entries != [] ==> lines[0] == ReplaceChar(entries[0].0, '/', '.')
  {
    if entries == [] then [] else EntryLines(entries[0].0, entries[0].1) + Render(entries[1..])
  }

  lemma {:induction false} RenderSnoc(entries: seq<(string, Info)>, e: (string, Info))
    ensures Render(entries + [e]) == Render(entries) + EntryLines(e.0, e.1)
  {
    if entries == [] {
      assert Render([e]) == EntryLines(e.0, e.1) + Render([]);
    } else {
      assert (entries + [e])[1..] == entries[1..] + [e];
      RenderSnoc(entries[1..], e);
    }
  }

  /** writeSBOM(sbom, file): the lines the writer receives, each followed by
      a line separator. */
  method WriteSbom(entries: seq<(string, Info)>) returns (lines: seq<string>)
    ensures lines == Render(entries)
  {
    lines := [];
    var i := 0;
    while i < |entries|
      invariant 0 <= i <= |entries|
      invariant lines == Render(entries[..i])
    {
      var (name, meta) := entries[i];
      var entryLines := WriteEntry(name, meta);
      assert entries[..i + 1] == entries[..i] + [entries[i]];
      RenderSnoc(entries[..i], entries[i]);
      lines := lines + entryLines;
      i := i + 1;
    }
    assert entries[..i] == entries;
  }

  /** The body of the loop of writeSBOM for one map entry. */
  method WriteEntry(name: string, meta: Info) returns (lines: seq<string>)
    ensures lines == EntryLines(name, meta)
  {
    lines := [ReplaceChar(name, '/', '.')];
    lines := lines + [ID_PREFIX + meta.id];
    lines := lines + [ARTEFACT_PREFIX + meta.artefact];
    lines := lines + [GROUP_PREFIX + meta.group];
    lines := lines + [VERSION_PREFIX + meta.version];
    var dependencies := meta.childIds;
    if dependencies.Some? && |dependencies.value| > 0 {
      lines := lines + [DEPENDENCIES_LINE];
      var depLines := WriteDependencies(dependencies.value);
      lines := lines + depLines;
    }
  }

  /** The loop over the child ids. */
  method WriteDependencies(deps: seq<string>) returns (lines: seq<string>)
    ensures lines == DependencyLines(deps)
  {
    lines := [];
    var k := 0;
    while k < |deps|
      invariant 0 <= k <= |deps|
      invariant lines == DependencyLines(deps)[..k]
    {
      assert DependencyLines(deps)[..k + 1] == DependencyLines(deps)[..k] + [DEPENDENCY_PREFIX + deps[k]];
      lines := lines + [DEPENDENCY_PREFIX + deps[k]];
      k := k + 1;
    }
    assert DependencyLines(deps)[..k] == DependencyLines(deps);
  }

  // ---------------------------------------------------------------------
  // Reading the text back

  /** One SBOM entry as the text shows it. */
  datatype SbomEntry = SbomEntry(className: string, id: string, artefact: string, group: string,
                                 version: string, dependencies: seq<string>)

  /** What the text of one map entry says: the dotted class name, and no
      dependencies for a null array. */
  function Shown(name: string, info: Info): SbomEntry
  {
    SbomEntry(ReplaceChar(name, '/', '.'), info.id, info.artefact, info.group, info.version,
              if info.childIds.Some? then info.childIds.value else [])
  }

  /** The line belongs to an entry (it is not a class name line). */
  predicate Indented(line: string)
  {
    line != [] && line[0] == '\t'
  }

  /** The dependency lines at the head of `lines`, without their prefix, and
      the lines after them. */
  function TakeDependencies(lines: seq<string>): (r: (seq<string>, seq<string>))
    ensures |r.1| <= |lines|
  {
    if lines != [] && StartsWith(lines[0], DEPENDENCY_PREFIX) then
      var (deps, rest) := TakeDependencies(lines[1..]);
      ([lines[0][|DEPENDENCY_PREFIX|..]] + deps, rest)
    else ([], lines)
  }

  /** The value of a field line, or None when the line is not that field. */
  function Field(line: string, prefix: string): Option<string>
  {
    if StartsWith(line, prefix) then Some(line[|prefix|..]) else None
  }

  /** One entry at the head of `lines`, and the lines after it. */
  function ParseEntry(lines: seq<string>): (r: Option<(SbomEntry, seq<string>)>)
    ensures r.Some? ==> |r.value.1| < |lines|
  {
    if |lines| < 5 || Indented(lines[0]) then None
    else
      var id := Field(lines[1], ID_PREFIX);
      var artefact := Field(lines[2], ARTEFACT_PREFIX);
      var group := Field(lines[3], GROUP_PREFIX);
      var version := Field(lines[4], VERSION_PREFIX);
      if id.None? || artefact.None? || group.None? || version.None? then None
      else
        var (deps, rest) :=
          if |lines| > 5 && lines[5] == DEPENDENCIES_LINE then TakeDependencies(lines[6..]) else ([], lines[5..]);
        Some((SbomEntry(lines[0], id.value, artefact.value, group.value, version.value, deps), rest))
  }

  /** The entries of an SBOM text, or None when it is not one. */
  function ParseSbom(lines: seq<string>): Option<seq<SbomEntry>>
    decreases |lines|
  {
    if lines == [] then Some([])
    else
      match ParseEntry(lines)
      case None => None
      case Some((entry, rest)) =>
        match ParseSbom(rest)
        case None => None
        case Some(entries) => Some([entry] + entries)
  }

  /** The lines start with a class name line, or there are none. */
  predicate AtEntry(rest: seq<string>)
  {
    rest == [] || !Indented(rest[0])
  }

  lemma {:induction false} TakeDependenciesOf(deps: seq<string>, rest: seq<string>)
    requires AtEntry(rest)
    ensures TakeDependencies(DependencyLines(deps) + rest) == (deps, rest)
  {
    if deps == [] {
      assert DependencyLines(deps) + rest == rest;
      if rest != [] {
        assert !StartsWith(rest[0], DEPENDENCY_PREFIX);
      }
    } else {
      var lines := DependencyLines(deps) + rest;
      assert lines[0] == DEPENDENCY_PREFIX + deps[0];
      assert lines[1..] == DependencyLines(deps[1..]) + rest;
      TakeDependenciesOf(deps[1..], rest);
      assert lines[0][|DEPENDENCY_PREFIX|..] == deps[0];
      assert [deps[0]] + deps[1..] == deps;
    }
  }

  lemma FieldOf(prefix: string, value: string)
    ensures Field(prefix + value, prefix) == Some(value)
  {
    assert (prefix + value)[..|prefix|] == prefix;
    assert (prefix + value)[|prefix|..] == value;
  }

  /** One entry's text reads back as what it shows, when the class name
      does not start with a tab. */
  lemma ParseEntryOf(name: string, info: Info, rest: seq<string>)
    requires !Indented(name)
    requires AtEntry(rest)
    ensures ParseEntry(EntryLines(name, info) + rest) == Some((Shown(name, info), rest))
  {
    var lines := EntryLines(name, info) + rest;
    var header := ReplaceChar(name, '/', '.');
    assert !Indented(header) by {
      if header != [] {
        assert header[0] == (if name[0] == '/' then '.' else name[0]);
      }
    }
    FieldOf(ID_PREFIX, info.id);
    FieldOf(ARTEFACT_PREFIX, info.artefact);
    FieldOf(GROUP_PREFIX, info.group);
    FieldOf(VERSION_PREFIX, info.version);
    assert lines[0] == header && lines[1] == ID_PREFIX + info.id && lines[2] == ARTEFACT_PREFIX + info.artefact;
    assert lines[3] == GROUP_PREFIX + info.group && lines[4] == VERSION_PREFIX + info.version;
    if info.childIds.Some? && |info.childIds.value| > 0 {
      var deps := info.childIds.value;
      assert lines[5] == DEPENDENCIES_LINE;
      assert lines[6..] == DependencyLines(deps) + rest;
      TakeDependenciesOf(deps, rest);
    } else {
      assert lines[5..] == rest;
      if rest != [] {
        assert lines[5] != DEPENDENCIES_LINE;
      }
    }
  }

  /** What the text of each map entry says, in map order. */
  function ShownAll(entries: seq<(string, Info)>): (r: seq<SbomEntry>)
    ensures |r| == |entries|
    ensures forall i :: 0 <= i < |entries| ==> r[i] == Shown(entries[i].0, entries[i].1)
  {
    if entries == [] then [] else [Shown(entries[0].0, entries[0].1)] + ShownAll(entries[1..])
  }

  /** The SBOM text reads back as the entries it was written from: the
      written text determines every class name (dotted), field and child id,
      in map order, provided no class name starts with a tab. */
  lemma {:induction false} RenderRoundTrip(entries: seq<(string, Info)>)
    requires forall i :: 0 <= i < |entries| ==> !Indented(entries[i].0)
    ensures ParseSbom(Render(entries)) == Some(ShownAll(entries))
  {
    if entries != [] {
      var rest := Render(entries[1..]);
      RenderRoundTrip(entries[1..]);
      assert AtEntry(rest) by {
        if entries[1..] != [] {
          RenderStarts(entries[1..]);
        }
      }
      ParseEntryOf(entries[0].0, entries[0].1, rest);
      assert Render(entries) == EntryLines(entries[0].0, entries[0].1) + rest;
    }
  }

  /** A non-empty SBOM text starts with a class name line. */
  lemma RenderStarts(entries: seq<(string, Info)>)
    requires entries != [] && !Indented(entries[0].0)
    ensures Render(entries) != [] && !Indented(Render(entries)[0])
  {
    var header := ReplaceChar(entries[0].0, '/', '.');
    assert Render(entries)[0] == header;
    if header != [] {
      assert header[0] == (if entries[0].0[0] == '/' then '.' else entries[0].0[0]);
    }
  }

  // ---------------------------------------------------------------------
  // The transformer

  /** No class name occurs twice among the entries. */
  predicate DistinctNames(entries: seq<(string, Info)>)
  {
    forall i, j :: 0 <= i < |entries| && 0 <= j < |entries| && i != j ==> entries[i].0 != entries[j].0
  }

  /** An entrySet() order of map `m`: every key exactly once. HashMap leaves
      this order to the keys' hash codes and the table's history, so the
      model takes it as given. */
  predicate IsEntryOrder(m: map<string, Info>, order: seq<string>)
  {
    && m.Keys == (set k | k in order)
    && (forall i, j :: 0 <= i < j < |order| ==> order[i] != order[j])
  }

  /** The map's entries, listed in the given order. */
  function EntriesIn(m: map<string, Info>, order: seq<string>): (r: seq<(string, Info)>)
    requires forall k :: k in order ==> k in m
    ensures |r| == |order|
    ensures forall i :: 0 <= i < |order| ==> r[i] == (order[i], m[order[i]])
  {
    if order == [] then [] else [(order[0], m[order[0]])] + EntriesIn(m, order[1..])
  }

  /** Listed in an entrySet() order, the entries are exactly the map's
      entries, and no class name occurs twice. */
  lemma EntriesInIsMap(m: map<string, Info>, order: seq<string>)
    requires IsEntryOrder(m, order)
    ensures DistinctNames(EntriesIn(m, order))
    ensures forall name, info :: (name, info) in EntriesIn(m, order) <==> name in m && m[name] == info
  {
    var r := EntriesIn(m, order);
    forall name, info | name in m && m[name] == info
      ensures (name, info) in r
    {
      var i :| 0 <= i < |order| && order[i] == name;
      assert r[i] == (name, info);
    }
  }

  class ClassportAgent {
    var sbom: map<string, Info>
    var noAnnotations: seq<string>

    constructor ()
      ensures sbom == map[] && noAnnotations == []
    {
      sbom := map[];
      noAnnotations := [];
    }

    /** transform(...): `read` stands for AnnotationReader.getAnnotationValues
        (Err: it throws, which is caught and reported). The class bytes are
        never changed: the result is always null. */
    method Transform(name: string, buffer: seq<byte>, read: seq<byte> -> Result<Option<Info>>)
      returns (r: Option<seq<byte>>)
      modifies this
      ensures r == None
      ensures read(buffer).Ok? && read(buffer).value.Some? ==> sbom == old(sbom)[name := read(buffer).value.value]
      ensures !(read(buffer).Ok? && read(buffer).value.Some?) ==> sbom == old(sbom)
      ensures noAnnotations == old(noAnnotations) + if read(buffer) == Ok(None) then [name] else []
    {
      var ann := read(buffer);
      if ann.Ok? {
        if ann.value.Some? {
          sbom := sbom[name := ann.value.value];
        } else {
          noAnnotations := noAnnotations + [name];
        }
      }
      return None;
    }

    /** The shutdown hook: the SBOM text, entry after entry in the map's
        entrySet() order. */
    method Shutdown(order: seq<string>) returns (lines: seq<string>)
      requires IsEntryOrder(sbom, order)
      ensures lines == Render(EntriesIn(sbom, order))
    {
      lines := WriteSbom(EntriesIn(sbom, order));
    }
  }
}
