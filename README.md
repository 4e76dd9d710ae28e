# classport, modelled in Dafny

classport records where each class of a Maven build came from. At packaging
time it embeds a `ClassportInfo` annotation (group, version, id, the project
it was built from, the ids of its children in the dependency tree, the
artefact and whether it is a direct dependency) into every class file of
every dependency jar, as a class-level `RuntimeVisibleAnnotations`
attribute. It does so in two ways: byte by byte (`AnnotationConstantPool`,
which appends Utf8 and Integer entries to the constant pool and merges into
or appends the attribute) or through ASM visitors (`MetadataAdder`). At run
time the agents read the annotation back, to print a software bill of
materials or a dependency tree; the native agent scans constant pools
instead.

The model follows the source file by file:

- `bytes`, `buffers`, `strings`, `seq_facts`, `wrappers`: big-endian u2/u4
  fields, a read cursor and a write sink over bytes (Java's `ByteBuffer`
  and `DataOutputStream`), Java's modified UTF-8 and string helpers.
- `constant_pool`, `class_file`, `annotations`: the class-file layout the
  injector walks: the constant pool, fields, methods and attribute tables,
  and the `element_value` format of section 4.7.16 of the Java Virtual
  Machine Specification, with round-trip lemmas for what is written.
- `records`, `annotation_entries`, `injected_annotation`, `injector`: the
  byte-level injector (`AnnotationConstantPool`), a class whose methods
  are proved against specification functions of the input bytes.
- `descriptors`, `coordinates`, `granularity`, the `*_mojo` files,
  `jar_helper`: the Maven plugins' embedding goals, artefact coordinates
  and the jar rewriting helper.
- `annotation_adder`, `tld_metadata_adder`, `plugin_metadata_adder`: the
  ASM-visitor adders, as the visitor events they forward and insert.
- `sbom_tree`, `project_commons`, `chains_commons`, `chains_agent`,
  `tld_agent`, `native_agent`: dependency graphs built from the embedded
  records, and the trees and lists the agents print.

## Model

| member | source | states |
|---|---|---|
| Bytes.U2 | classport-commons/src/main/java/io/github/project/classport/commons/AnnotationConstantPool.java:115 | `writeShort` emits exactly two bytes |
| Bytes.U4 | classport-commons/src/main/java/io/github/project/classport/commons/AnnotationConstantPool.java:82-85 | `writeInt` emits exactly four bytes |
| Bytes.U2At | classport-commons/src/main/java/io/github/project/classport/commons/AnnotationConstantPool.java:98 | `getShort() & 0xFFFF` yields a value below 2^16 |
| Bytes.U4At | classport-commons/src/main/java/io/github/project/classport/commons/AnnotationConstantPool.java:150 | four big-endian bytes read unsigned stay below 2^32 |
| Bytes.S4At | classport-commons/src/main/java/io/github/project/classport/commons/AnnotationConstantPool.java:150 | `getInt` yields a signed 32-bit value, negative exactly when the top bit of the u4 is set |
| Bytes.U2RoundTrip | classport-commons/src/main/java/io/github/project/classport/commons/AnnotationConstantPool.java:115 | reading back the two bytes `writeShort(v)` wrote gives v for every v in 0..65535 |
| Bytes.U4RoundTrip | classport-commons/src/main/java/io/github/project/classport/commons/AnnotationConstantPool.java:82-85 | reading back the four bytes `writeInt(v)` wrote gives v for every v in 0..2^32-1 |
| Bytes.U2Of | classport-commons/src/main/java/io/github/project/classport/commons/AnnotationConstantPool.java:125-127 | `writeShort(getShort())` copies the two bytes read unchanged |
| Bytes.U4Of | classport-commons/src/main/java/io/github/project/classport/commons/AnnotationConstantPool.java:162-164 | `writeInt(getInt())` copies the four bytes read unchanged, whatever their sign |
| Bytes.SplitSlice | classport-commons/src/main/java/io/github/project/classport/commons/AnnotationConstantPool.java:117-120 | a region holding x followed by y holds x at its start and y right after |
| Bytes.CopiedSlice | classport-commons/src/main/java/io/github/project/classport/commons/AnnotationConstantPool.java:104-106 | copying a region in two consecutive pieces copies the whole region |
| Bytes.Utf16 | classport-commons/src/main/java/io/github/project/classport/commons/AnnotationConstantPool.java:79 | a character is one or two UTF-16 code units, each below 2^16 |
| Bytes.EncodeUnit | classport-commons/src/main/java/io/github/project/classport/commons/AnnotationConstantPool.java:79 | `writeUTF` spends one to three bytes per code unit, one exactly for units 1..0x7F |
| Bytes.ModifiedUtf8Cons | classport-commons/src/main/java/io/github/project/classport/commons/AnnotationConstantPool.java:79 | the encoding of a string is its first character's bytes followed by the encoding of the rest |
| Bytes.PlainAsciiConcat | classport-commons/src/main/java/io/github/project/classport/commons/AnnotationConstantPool.java:24 | ASCII text without NUL stays so under concatenation |
| Bytes.Ascii | classport-commons/src/main/java/io/github/project/classport/commons/AnnotationConstantPool.java:24 | an ASCII literal is one byte per character, holding its code |
| Bytes.ModifiedUtf8OfAscii | classport-commons/src/main/java/io/github/project/classport/commons/AnnotationConstantPool.java:122 | the modified UTF-8 of ASCII text without NUL is its character codes |
| Bytes.ModifiedUtf8Length | classport-commons/src/main/java/io/github/project/classport/commons/AnnotationConstantPool.java:79 | the modified UTF-8 encoding is never shorter than the string |
| Bytes.ReadNBytes | maven-plugin/src/main/java/io/github/project/classport/plugin/EmbeddingMojo.java:110 | `readNBytes(n)` returns min(n, length) bytes, a prefix of the content |
| Bytes.IsClassFile | maven-plugin/src/main/java/io/github/project/classport/plugin/EmbeddingMojo.java:110-111 | a file counts as a class file exactly when it has at least four bytes and they are the magic `CAFEBABE` |
| Buffers.Cursor.constructor | classport-commons/src/main/java/io/github/project/classport/commons/AnnotationConstantPool.java:88 | `ByteBuffer.wrap` starts at position 0 over the given bytes |
| Buffers.Cursor.Get | classport-commons/src/main/java/io/github/project/classport/commons/AnnotationConstantPool.java:303 | `get()` yields the byte at the position and advances by one, or underflows and stays |
| Buffers.Cursor.GetU2 | classport-commons/src/main/java/io/github/project/classport/commons/AnnotationConstantPool.java:98 | `getShort() & 0xFFFF` yields the big-endian u2 at the position and advances by two, or underflows and stays |
| Buffers.Cursor.GetInt | classport-commons/src/main/java/io/github/project/classport/commons/AnnotationConstantPool.java:150 | `getInt()` yields the signed big-endian int and advances by four, or underflows and stays |
| Buffers.Cursor.SkipLong | classport-commons/src/main/java/io/github/project/classport/commons/AnnotationConstantPool.java:385 | `getLong()` advances by eight, or underflows and stays |
| Buffers.Cursor.GetBytes | classport-commons/src/main/java/io/github/project/classport/commons/AnnotationConstantPool.java:151-152 | `new byte[n]` then `get` yields the next n bytes; a negative n is NegativeArraySizeException, too few bytes an underflow |
| Buffers.Cursor.SetPosition | classport-commons/src/main/java/io/github/project/classport/commons/AnnotationConstantPool.java:289 | `position(p)` moves to any p in 0..limit and fails otherwise, leaving the position |
| Buffers.ByteSink.constructor | classport-commons/src/main/java/io/github/project/classport/commons/AnnotationConstantPool.java:90-91 | a fresh output stream is empty |
| Buffers.ByteSink.WriteByte | classport-commons/src/main/java/io/github/project/classport/commons/AnnotationConstantPool.java:78 | `writeByte(v)` appends the low eight bits of v |
| Buffers.ByteSink.WriteShort | classport-commons/src/main/java/io/github/project/classport/commons/AnnotationConstantPool.java:115 | `writeShort(v)` appends the low 16 bits of v big-endian |
| Buffers.ByteSink.WriteInt | classport-commons/src/main/java/io/github/project/classport/commons/AnnotationConstantPool.java:84 | `writeInt(v)` appends v as four big-endian bytes |
| Buffers.ByteSink.Write | classport-commons/src/main/java/io/github/project/classport/commons/AnnotationConstantPool.java:117 | `write(bytes)` appends the bytes unchanged |
| Buffers.ByteSink.WriteUtf | classport-commons/src/main/java/io/github/project/classport/commons/AnnotationConstantPool.java:79 | `writeUTF(s)` appends the u2 byte count and the modified UTF-8 bytes, or throws UTFDataFormatException and writes nothing when the encoding exceeds 65535 bytes |
| JavaStrings.AsciiUpper | classport-instr-agent/src/main/java/io/github/chains_project/classport/instrumentation/granularity/Granularity.java:10 | the upper case of an ASCII character is ASCII |
| JavaStrings.UpperChar | classport-instr-agent/src/main/java/io/github/chains_project/classport/instrumentation/granularity/Granularity.java:10 | `toUpperCase` maps an ASCII character to its single ASCII upper case |
| JavaStrings.UpperCaseAscii | classport-instr-agent/src/main/java/io/github/chains_project/classport/instrumentation/granularity/Granularity.java:10 | on ASCII text `toUpperCase` keeps the length and upper-cases each character in place |
| JavaStrings.UpperCaseMatchesName | classport-instr-agent/src/main/java/io/github/chains_project/classport/instrumentation/granularity/Granularity.java:10 | an ASCII string upper-cases to an upper-case name exactly when it equals the name ignoring case |
| JavaStrings.ReplaceChar | classport-commons/src/main/java/io/github/chains_project/classport/commons/Utils.java:28 | `replace(from, to)` keeps the length and swaps exactly the occurrences of `from` |
| JavaStrings.LastIndexOf | classport-commons/src/main/java/io/github/project/classport/commons/ClassportProject.java:115 | `lastIndexOf(c)` is the last position holding c, or -1 exactly when c does not occur |
| Descriptors.PrimitiveDescriptor | classport-commons/src/main/java/io/github/chains_project/classport/commons/Utils.java:39-58 | a primitive type's descriptor is one of the letters B C D F I J S Z; `void` alone throws IllegalArgumentException |
| Descriptors.DescriptorString | classport-commons/src/main/java/io/github/chains_project/classport/commons/Utils.java:8-35 | `descriptorString` throws IllegalArgumentException exactly for `void` and arrays of `void`, and a descriptor starts with `[` exactly for an array type |
| Descriptors.ElementType | classport-commons/src/main/java/io/github/chains_project/classport/commons/Utils.java:12-13 | stripping array dimensions ends at a type that is not an array |
| Descriptors.Repeat | classport-commons/src/main/java/io/github/chains_project/classport/commons/Utils.java:13 | n copies of one character |
| Descriptors.ClassDescriptor | classport-commons/src/main/java/io/github/chains_project/classport/commons/Utils.java:27-33 | a class descriptor is `L`, the name with each `.` made `/`, then `;`: two characters longer than the name and without any `.` |
| Descriptors.ArrayDescriptor | classport-commons/src/main/java/io/github/chains_project/classport/commons/Utils.java:12-13 | an array type's descriptor is one `[` per dimension before the element type's descriptor, and exists exactly when the element's does |
| Descriptors.DescriptorReadsBack | classport-commons/src/main/java/io/github/chains_project/classport/commons/Utils.java:8-35 | every descriptor `descriptorString` produces parses back to the type it describes, class names in internal form |
| ChainsGranularity.ValueOf | classport-instr-agent/src/main/java/io/github/chains_project/classport/instrumentation/granularity/Granularity.java:10 | `valueOf` accepts exactly the names CLASS and METHOD |
| ChainsGranularity.FromString | classport-instr-agent/src/main/java/io/github/chains_project/classport/instrumentation/granularity/Granularity.java:7-14 | a mode selects CLASS exactly when it upper-cases to "CLASS"; null and every other string select METHOD |
| ChainsGranularity.ClassInAnyCase | classport-instr-agent/src/main/java/io/github/chains_project/classport/instrumentation/granularity/Granularity.java:7-14 | an ASCII mode selects CLASS exactly when it is "class" in any letter case |
| ChainsGranularity.SharpSNamesClass | classport-instr-agent/src/main/java/io/github/chains_project/classport/instrumentation/granularity/Granularity.java:10 | "claß" selects CLASS, because `toUpperCase` turns ß into SS |
| ProjectGranularity.ValueOf | classport-instr-agent/src/main/java/io/github/project/classport/instrumentation/granularity/Granularity.java:10 | `valueOf` accepts exactly the names DEPENDENCY and METHOD |
| ProjectGranularity.FromString | classport-instr-agent/src/main/java/io/github/project/classport/instrumentation/granularity/Granularity.java:7-14 | a mode selects DEPENDENCY exactly when it upper-cases to "DEPENDENCY"; null and every other string select METHOD |
| ProjectGranularity.DependencyInAnyCase | classport-instr-agent/src/main/java/io/github/project/classport/instrumentation/granularity/Granularity.java:7-14 | on ASCII modes, DEPENDENCY is chosen exactly for "dependency" in any letter case |
| ProjectGranularity.ClassModeIsMethod | classport-instr-agent/src/main/java/io/github/project/classport/instrumentation/granularity/Granularity.java:7-14 | "class" and "CLASS", the other agent's mode, select METHOD here |
| Coordinates.Split | maven-plugin/src/main/java/io/github/project/classport/plugin/EmbeddingMojo.java:77-83 | splitting text on a separator yields at least one field |
| Coordinates.Extend | maven-plugin/src/main/java/io/github/project/classport/plugin/EmbeddingMojo.java:77-83 | reading one more character keeps at least one field |
| Coordinates.SplitFree | maven-plugin/src/main/java/io/github/project/classport/plugin/EmbeddingMojo.java:77-83 | text without the separator is a single field |
| Coordinates.SplitSnoc | maven-plugin/src/main/java/io/github/project/classport/plugin/EmbeddingMojo.java:77-83 | splitting is left to right: one more character extends the fields read so far |
| Coordinates.ExtendAppend | maven-plugin/src/main/java/io/github/project/classport/plugin/EmbeddingMojo.java:77-83 | one more character only touches the last field |
| Coordinates.SplitAround | maven-plugin/src/main/java/io/github/project/classport/plugin/EmbeddingMojo.java:77-83 | splitting `a + sep + b` yields the fields of a followed by those of b |
| Coordinates.SplitReplaced | maven-plugin/src/main/java/io/github/project/classport/plugin/EmbeddingMojo.java:220 | replacing every `.` by `/` in a name without `/` turns its `.`-fields into its `/`-fields |
| Coordinates.ClassifierPart | maven-plugin/src/main/java/io/github/project/classport/plugin/EmbeddingMojo.java:81 | the classifier part is empty without a classifier and the lead plus the classifier with one |
| Coordinates.SplitJoin | maven-plugin/src/main/java/io/github/project/classport/plugin/EmbeddingMojo.java:77-83 | appending a separator and a separator-free field appends that field |
| Coordinates.LongId | maven-plugin/src/main/java/io/github/project/classport/plugin/EmbeddingMojo.java:77-91 | a long id `group:artifact:type[:classifier]:version` splits back into its coordinates when none contains `:`: four fields without a classifier, five with one |
| Coordinates.ShortId | maven-plugin/src/main/java/io/github/chains_project/classport/plugin/EmbeddingMojo.java:78-80 | the id `group:artifact:version` splits back into its three coordinates when none contains `:` |
| Coordinates.RepoPath | maven-plugin/src/main/java/io/github/project/classport/plugin/EmbeddingMojo.java:212-225 | a repository path ends in `.jar`, and when no part contains `/` its `/`-separated fields are the group's dot-separated parts, the artifactId, the directory version and the jar name |
| Coordinates.JarName | maven-plugin/src/main/java/io/github/project/classport/plugin/EmbeddingMojo.java:219-224 | the artefact file name ends in `.jar` |
| Coordinates.FreeConcat | maven-plugin/src/main/java/io/github/project/classport/plugin/EmbeddingMojo.java:219-224 | joining separator-free texts stays separator-free |
| Coordinates.JarNameFree | maven-plugin/src/main/java/io/github/project/classport/plugin/EmbeddingMojo.java:219-224 | the jar name has no `/` when its parts have none |
| ProjectMojo.LongIdsMatch | maven-plugin/src/main/java/io/github/project/classport/plugin/EmbeddingMojo.java:77-91 | a dependency's long id equals an artifact's exactly when they name the same coordinates, provided no coordinate contains `:` |
| ProjectMojo.DependencyLongId | maven-plugin/src/main/java/io/github/project/classport/plugin/EmbeddingMojo.java:77-83 | a dependency's long id splits back into its coordinates when none contains `:` |
| ProjectMojo.ArtifactLongId | maven-plugin/src/main/java/io/github/project/classport/plugin/EmbeddingMojo.java:85-91 | an artifact's long id splits back into its coordinates when none contains `:` |
| ProjectMojo.DependencyLongIds | maven-plugin/src/main/java/io/github/project/classport/plugin/EmbeddingMojo.java:183-184 | the long ids of the declared dependencies, one per dependency, in order |
| ProjectMojo.IsDirectDependency | maven-plugin/src/main/java/io/github/project/classport/plugin/EmbeddingMojo.java:182-184 | an artifact is recorded as direct exactly when some declared dependency has its long id |
| ProjectMojo.DirectDependencyIff | maven-plugin/src/main/java/io/github/project/classport/plugin/EmbeddingMojo.java:182-184 | with no `:` inside any coordinate, an artifact is recorded as direct exactly when some declared dependency names its coordinates |
| ProjectMojo.ArtefactPath | maven-plugin/src/main/java/io/github/project/classport/plugin/EmbeddingMojo.java:212-225 | the path ends in `.jar`; its fields are the group's dot-separated parts, the artifactId, the base version and a jar name that carries the resolved version only when asked |
| ProjectMojo.ChildIds | maven-plugin/src/main/java/io/github/project/classport/plugin/EmbeddingMojo.java:193-197 | the childIds stream fails only with NullPointerException, and otherwise yields at most one id per dependency |
| ProjectMojo.ChildIdsFails | maven-plugin/src/main/java/io/github/project/classport/plugin/EmbeddingMojo.java:195 | the childIds stream fails exactly when some dependency of the model has no scope |
| ProjectMojo.NonTest | maven-plugin/src/main/java/io/github/project/classport/plugin/EmbeddingMojo.java:195 | the filter keeps exactly the dependencies whose scope is not "test" |
| ProjectMojo.ChildIdsFilterMap | maven-plugin/src/main/java/io/github/project/classport/plugin/EmbeddingMojo.java:193-197 | with every scope present, childIds are the long ids of the non-test dependencies in their order |
| ProjectMojo.NonTestIds | maven-plugin/src/main/java/io/github/project/classport/plugin/EmbeddingMojo.java:193-197 | an id is among the childIds exactly when some dependency outside the test scope has it as its long id |
| ProjectMojo.DependencyLongIdsConcat | maven-plugin/src/main/java/io/github/project/classport/plugin/EmbeddingMojo.java:196 | mapping to long ids distributes over concatenation |
| ProjectMojo.ChildIdsConcat | maven-plugin/src/main/java/io/github/project/classport/plugin/EmbeddingMojo.java:193-197 | the stream over two lists succeeds exactly when it does over each, and then yields the first list's ids followed by the second's |
| ProjectMojo.Metadata | maven-plugin/src/main/java/io/github/project/classport/plugin/EmbeddingMojo.java:180-198 | getMetadata fails exactly when some dependency of the artifact's model lacks a scope, and otherwise records the stream's childIds |
| ProjectMojo.MetadataFields | maven-plugin/src/main/java/io/github/project/classport/plugin/EmbeddingMojo.java:180-198 | the metadata records the project's long id as source, the artifact's long id, whether a declared dependency names it, its artifactId, groupId and version, and as childIds exactly the long ids of non-test dependencies |
| ProjectMojo.ArtefactPathLayout | maven-plugin/src/main/java/io/github/project/classport/plugin/EmbeddingMojo.java:212-225 | both choices of version give the same path for a non-snapshot artifact |
| ProjectMojo.Embedded | maven-plugin/src/main/java/io/github/project/classport/plugin/EmbeddingMojo.java:110-122 | a file that does not start with the class-file magic is left untouched and never fails; only a class file can fail, with the exception the adder throws for the artifact's record |
| ProjectMojo.EmbedDirectory | maven-plugin/src/main/java/io/github/project/classport/plugin/EmbeddingMojo.java:97-128 | getMetadata(a) runs first: when some model dependency has no scope, its exception ends the call and no file changes, whether or not the directory exists; otherwise a missing directory changes nothing, and the call completes exactly when the adder succeeds on every class file with that record; every file then ends up as the adder's output if it is a class file and unchanged if not; after a failure each file is either untouched or rewritten |
| ChainsMojo.DependencyIds | maven-plugin/src/main/java/io/github/chains_project/classport/plugin/EmbeddingMojo.java:122-125 | childIds hold one `group:artifact:version` id per dependency of the model, in order, with no scope filter |
| ChainsMojo.Metadata | maven-plugin/src/main/java/io/github/chains_project/classport/plugin/EmbeddingMojo.java:111-126 | the recorded version is the base version, and the childIds are the dependency ids |
| ChainsMojo.DependencyId | maven-plugin/src/main/java/io/github/chains_project/classport/plugin/EmbeddingMojo.java:78-80 | a dependency id splits back into group, artifact and version when none contains `:` |
| ChainsMojo.EmbeddedIdMirrorsDependencyId | maven-plugin/src/main/java/io/github/chains_project/classport/plugin/EmbeddingMojo.java:72-80 | the recorded id of an artifact equals a dependency's id exactly when they share group, artifact and base version |
| ChainsMojo.ArtefactPathLayout | maven-plugin/src/main/java/io/github/chains_project/classport/plugin/EmbeddingMojo.java:137-150 | the path uses the base version in both the directory and the file name, ignores the resolved version, and equals the other plugin's path built without resolving snapshots |
| ChainsMojo.ArtefactPath | maven-plugin/src/main/java/io/github/chains_project/classport/plugin/EmbeddingMojo.java:137-150 | the path is the other plugin's path built without resolving snapshots |
| TldMojo.ArtefactPathLayout | src/main/java/tld/domain/me/EmbeddingMojo.java:92-105 | the directory carries the base version and the jar name the resolved version, as in the other plugin's path with snapshots resolved |
| TldMojo.ArtefactPath | src/main/java/tld/domain/me/EmbeddingMojo.java:92-105 | the path is the other plugin's path built with snapshots resolved |
| TldMojo.Pairs | src/main/java/tld/domain/me/EmbeddingMojo.java:61-70 | the pairs hold exactly GroupId, ArtifactId and Version, with the artifact's values |
| TldMojo.Execute | src/main/java/tld/domain/me/EmbeddingMojo.java:49-84 | the loop over the artifacts completes the embeds of `Completed` in order, skipping the ones whose IOException is caught |
| TldMojo.Completed | src/main/java/tld/domain/me/EmbeddingMojo.java:59-81 | no more embeds than artifacts |
| TldMojo.CompletedIff | src/main/java/tld/domain/me/EmbeddingMojo.java:59-81 | an embed is completed exactly when it is that of an artifact whose embed does not fail |
| TldMojo.CompletedAll | src/main/java/tld/domain/me/EmbeddingMojo.java:59-81 | without failures there is one embed per artifact, in order |
| TldPluginMojo.Pairs | maven-plugin/src/main/java/tld/domain/me/classport/plugin/EmbeddingMojo.java:106-116 | the pairs hold exactly id, group, artefact, version and parentId, parentId null where the child has no parent |
| TldPluginMojo.Visit | maven-plugin/src/main/java/tld/domain/me/classport/plugin/EmbeddingMojo.java:101-132 | the walk completes at most one embed per edge below the node, and throws only when some node below it has no artifact in the map |
| TldPluginMojo.VisitFirst | maven-plugin/src/main/java/tld/domain/me/classport/plugin/EmbeddingMojo.java:102-131 | the same for the forEach over the first k children |
| TldPluginMojo.VisitChild | maven-plugin/src/main/java/tld/domain/me/classport/plugin/EmbeddingMojo.java:103-130 | the same for one child: its own edge and the edges below it |
| TldPluginMojo.FailedStays | maven-plugin/src/main/java/tld/domain/me/classport/plugin/EmbeddingMojo.java:102-131 | once the forEach has thrown it stays thrown and adds nothing |
| TldPluginMojo.VisitFirstStep | maven-plugin/src/main/java/tld/domain/me/classport/plugin/EmbeddingMojo.java:102-131 | one more child extends the completed embeds by that child's embeds and takes over its outcome |
| TldPluginMojo.Embedder.constructor | maven-plugin/src/main/java/tld/domain/me/classport/plugin/EmbeddingMojo.java:101 | nothing is embedded yet |
| TldPluginMojo.Embedder.EmbedMetadata | maven-plugin/src/main/java/tld/domain/me/classport/plugin/EmbeddingMojo.java:101-132 | embedMetadata appends exactly the embeds of the walk and returns normally exactly when the walk does |
| TldPluginMojo.Embedder.EmbedChild | maven-plugin/src/main/java/tld/domain/me/classport/plugin/EmbeddingMojo.java:102-130 | one child: a missing artifact throws, a failing embed is logged and not walked, any other child is embedded and then walked |
| TldPluginMojo.ParentIdsPresent | maven-plugin/src/main/java/tld/domain/me/classport/plugin/EmbeddingMojo.java:112-116 | every embed the walk completes carries the five keys and a non-null parentId |
| TldPluginMojo.ParentIdsPresentFirst | maven-plugin/src/main/java/tld/domain/me/classport/plugin/EmbeddingMojo.java:112-116 | the same for the embeds of the first k children |
| TldPluginMojo.JobsOf | maven-plugin/src/main/java/tld/domain/me/classport/plugin/EmbeddingMojo.java:102-131 | at most one embed per edge |
| TldPluginMojo.JobsOfConcat | maven-plugin/src/main/java/tld/domain/me/classport/plugin/EmbeddingMojo.java:102-131 | the embeds of two edge lists are those of each, in order |
| TldPluginMojo.PreOrderResolved | maven-plugin/src/main/java/tld/domain/me/classport/plugin/EmbeddingMojo.java:103 | every edge below a resolvable node ends at an id in the artifact map |
| TldPluginMojo.PreOrderFirstResolved | maven-plugin/src/main/java/tld/domain/me/classport/plugin/EmbeddingMojo.java:103 | the same for the edges below the first k children |
| TldPluginMojo.WalkIsPreOrder | maven-plugin/src/main/java/tld/domain/me/classport/plugin/EmbeddingMojo.java:101-132 | when every artifact is found and no embed fails, the walk embeds every child before its own children, in pre-order, each with its parent's id, and returns normally |
| TldPluginMojo.WalkIsPreOrderFirst | maven-plugin/src/main/java/tld/domain/me/classport/plugin/EmbeddingMojo.java:101-132 | the same for the first k children |
| TldPluginMojo.JobsOfEdge | maven-plugin/src/main/java/tld/domain/me/classport/plugin/EmbeddingMojo.java:112-126 | the embeds of a child's edge come right after those before it and before those below it |
| JarHelper.IsSignatureFile | maven-plugin/src/main/java/io/github/project/classport/plugin/JarHelper.java:51-55 | every file `isSignatureFile` drops lies under `META-INF/` |
| JarHelper.ManifestIsNotSignature | maven-plugin/src/main/java/io/github/project/classport/plugin/JarHelper.java:51-55 | the manifest `META-INF/MANIFEST.MF` is not a signature file |
| JarHelper.NonDigest | maven-plugin/src/main/java/io/github/project/classport/plugin/JarHelper.java:67-72 | the inner loop keeps no more attributes than the section had |
| JarHelper.NonDigestIff | maven-plugin/src/main/java/io/github/project/classport/plugin/JarHelper.java:67-72 | an attribute is kept exactly when the section has it and its name does not end in `-Digest` |
| JarHelper.NonDigestIdempotent | maven-plugin/src/main/java/io/github/project/classport/plugin/JarHelper.java:67-72 | removing digests twice removes no more than once |
| JarHelper.UnsignedEntries | maven-plugin/src/main/java/io/github/project/classport/plugin/JarHelper.java:63-78 | the outer loop keeps no more sections than the manifest had |
| JarHelper.UnsignedEntriesIff | maven-plugin/src/main/java/io/github/project/classport/plugin/JarHelper.java:63-78 | a section is kept exactly when it has a non-digest attribute, and then with exactly its non-digest attributes |
| JarHelper.UnsignedEntriesConcat | maven-plugin/src/main/java/io/github/project/classport/plugin/JarHelper.java:63-78 | the sections are processed independently, in order |
| JarHelper.UnsignedEntriesIdempotent | maven-plugin/src/main/java/io/github/project/classport/plugin/JarHelper.java:63-78 | unsigning the sections of an unsigned manifest keeps them all |
| JarHelper.UnsignedManifest | maven-plugin/src/main/java/io/github/project/classport/plugin/JarHelper.java:59-81 | the unsigned manifest keeps the main attributes, and unsigning its sections again changes nothing |
| JarHelper.GetUnsignedManifest | maven-plugin/src/main/java/io/github/project/classport/plugin/JarHelper.java:59-81 | the two nested loops build the manifest with the main attributes unchanged and exactly the non-empty non-digest sections |
| JarHelper.ProcessFile | maven-plugin/src/main/java/io/github/project/classport/plugin/JarHelper.java:132-168 | a signature file yields no entry and never fails; otherwise a file entry under its own path, or the exception of the manifest parser (for the manifest) or of the metadata adder |
| JarHelper.ProcessFileContent | maven-plugin/src/main/java/io/github/project/classport/plugin/JarHelper.java:150-164 | a file other than the manifest is passed to the metadata adder exactly when its first four bytes are the class-file magic, fails exactly when the adder does, and is kept byte for byte otherwise |
| JarHelper.Put | maven-plugin/src/main/java/io/github/project/classport/plugin/JarHelper.java:168 | `put` keeps paths distinct, replacing the entry under the same path or adding the new one |
| JarHelper.PathLessIrreflexive | maven-plugin/src/main/java/io/github/project/classport/plugin/JarHelper.java:186 | `compareTo` never puts a path before itself |
| JarHelper.PathLessTransitive | maven-plugin/src/main/java/io/github/project/classport/plugin/JarHelper.java:186 | `compareTo` order is transitive |
| JarHelper.PathLessTotal | maven-plugin/src/main/java/io/github/project/classport/plugin/JarHelper.java:186 | any two different paths are ordered one way or the other |
| JarHelper.Insert | maven-plugin/src/main/java/io/github/project/classport/plugin/JarHelper.java:186 | one insertion step adds the entry and nothing else |
| JarHelper.InsertSorted | maven-plugin/src/main/java/io/github/project/classport/plugin/JarHelper.java:186 | inserting an entry with a new path into a sorted sequence keeps it sorted and adds exactly that entry |
| JarHelper.SortByPath | maven-plugin/src/main/java/io/github/project/classport/plugin/JarHelper.java:184-186 | `sorted` keeps exactly the entries it is given, each as often |
| JarHelper.SortByPathSorted | maven-plugin/src/main/java/io/github/project/classport/plugin/JarHelper.java:184-186 | `sorted` by path yields a strictly increasing permutation of distinct-path entries |
| JarHelper.SortedUnique | maven-plugin/src/main/java/io/github/project/classport/plugin/JarHelper.java:184-199 | two strictly increasing arrangements of the same entries are equal |
| JarHelper.CollectFiles | maven-plugin/src/main/java/io/github/project/classport/plugin/JarHelper.java:130-172 | when the per-file loop completes it leaves distinct paths, only file entries and no signature file |
| JarHelper.CollectFilesOk | maven-plugin/src/main/java/io/github/project/classport/plugin/JarHelper.java:130-172 | the per-file loop completes exactly when no file's processing throws |
| JarHelper.CollectFilesErrPrefix | maven-plugin/src/main/java/io/github/project/classport/plugin/JarHelper.java:130-172 | an exception on one file aborts the whole loop with that exception |
| JarHelper.CollectDirs | maven-plugin/src/main/java/io/github/project/classport/plugin/JarHelper.java:175-178 | the directory loop keeps paths distinct and adds only empty directory entries |
| JarHelper.CollectDirsHasDirs | maven-plugin/src/main/java/io/github/project/classport/plugin/JarHelper.java:175-178 | every directory gets an entry named after it with a trailing `/` |
| JarHelper.CollectDirsKeeps | maven-plugin/src/main/java/io/github/project/classport/plugin/JarHelper.java:175-178 | a collected file whose path does not end in `/` survives the directory loop |
| JarHelper.CollectFilesHasFiles | maven-plugin/src/main/java/io/github/project/classport/plugin/JarHelper.java:130-172 | when the loop completes, every file that is not a signature file is collected with its processed content |
| JarHelper.KeptAfterPut | maven-plugin/src/main/java/io/github/project/classport/plugin/JarHelper.java:168 | putting an entry under another path keeps a collected file |
| JarHelper.DirectoryEntries | maven-plugin/src/main/java/io/github/project/classport/plugin/JarHelper.java:184-185 | the directory filter keeps exactly the directory entries |
| JarHelper.FileEntries | maven-plugin/src/main/java/io/github/project/classport/plugin/JarHelper.java:197-198 | the file filter keeps exactly the file entries |
| JarHelper.WriteOrder | maven-plugin/src/main/java/io/github/project/classport/plugin/JarHelper.java:180-209 | the entries are written directories first, then files, and exactly the map's entries are written |
| JarHelper.EmbedSpec | maven-plugin/src/main/java/io/github/project/classport/plugin/JarHelper.java:96-210 | embed completes exactly when the target may be written, the source is a jar and no file's processing throws, and then writes no signature file |
| JarHelper.WriteOrderShape | maven-plugin/src/main/java/io/github/project/classport/plugin/JarHelper.java:180-209 | all directories are written before any file, each group in strictly increasing path order, and exactly the map's entries are written |
| JarHelper.WriteOrderIgnoresMapOrder | maven-plugin/src/main/java/io/github/project/classport/plugin/JarHelper.java:184-199 | the written jar does not depend on the order the concurrent map yields its entries in |
| JarHelper.SortedSameMembers | maven-plugin/src/main/java/io/github/project/classport/plugin/JarHelper.java:186 | sorting two path-distinct sequences with the same members gives the same sequence |
| JarHelper.JarHelper.constructor | maven-plugin/src/main/java/io/github/project/classport/plugin/JarHelper.java:43-47 | the three-argument constructor records the target and the overwrite flag |
| JarHelper.JarHelper.WithoutOverwrite | maven-plugin/src/main/java/io/github/project/classport/plugin/JarHelper.java:39-41 | the two-argument constructor records the target and does not overwrite |
| JarHelper.JarHelper.Embed | maven-plugin/src/main/java/io/github/project/classport/plugin/JarHelper.java:96-210 | embed fails with an IOException naming the target when it exists without overwrite, or when the source is a directory, and otherwise yields exactly what `EmbedSpec` describes, a failing file included |
| JarHelper.EmbedWrites | maven-plugin/src/main/java/io/github/project/classport/plugin/JarHelper.java:96-210 | for a fresh target and a jar source, embed succeeds exactly when no file's processing throws, and then writes directories first, each group sorted by path, an entry for every directory, every non-signature file processed, and no signature file |
| AnnotationAdder.UpgradedVersion | maven-plugin/src/main/java/tld/domain/me/classport/plugin/MetadataAdder.java:47-51 | the version passed on has a low byte of at least 49 (Java 5): a version already that high is kept, a lower one becomes 49 |
| AnnotationAdder.ArrayCalls | maven-plugin/src/main/java/tld/domain/me/classport/plugin/MetadataAdder.java:117-122 | a `String[]` element gives one array call per string, in order |
| AnnotationAdder.Added | maven-plugin/src/main/java/tld/domain/me/classport/plugin/MetadataAdder.java:108-133 | after addAnnotation the presence flag is set |
| AnnotationAdder.Step | maven-plugin/src/main/java/tld/domain/me/classport/plugin/MetadataAdder.java:47-106 | one visit call only appends to what the next visitor has received, at least the call it passes on, and never clears the flag |
| AnnotationAdder.Run | maven-plugin/src/main/java/tld/domain/me/classport/plugin/MetadataAdder.java:37-106 | the visit calls of a class keep everything received before, add at least one call per event, and keep a set flag set |
| AnnotationAdder.AnnotationAdder.constructor | maven-plugin/src/main/java/tld/domain/me/classport/plugin/MetadataAdder.java:39-42 | a new adder has its configuration, the flag clear and nothing written |
| AnnotationAdder.AnnotationAdder.Visit | maven-plugin/src/main/java/tld/domain/me/classport/plugin/MetadataAdder.java:47-51 | visit passes the header on with the version upgraded |
| AnnotationAdder.AnnotationAdder.VisitAnnotation | maven-plugin/src/main/java/tld/domain/me/classport/plugin/MetadataAdder.java:57-63 | visitAnnotation sets the flag for a visible annotation matching the marker and passes the annotation on |
| AnnotationAdder.AnnotationAdder.VisitInnerClass | maven-plugin/src/main/java/tld/domain/me/classport/plugin/MetadataAdder.java:70-74 | visitInnerClass inserts the annotation first if the flag is clear, then passes the inner class on |
| AnnotationAdder.AnnotationAdder.VisitField | maven-plugin/src/main/java/tld/domain/me/classport/plugin/MetadataAdder.java:81-85 | visitField inserts the annotation first if the flag is clear, then passes the field on |
| AnnotationAdder.AnnotationAdder.VisitMethod | maven-plugin/src/main/java/tld/domain/me/classport/plugin/MetadataAdder.java:92-96 | visitMethod inserts the annotation first if the flag is clear, then passes the method on |
| AnnotationAdder.AnnotationAdder.VisitEnd | maven-plugin/src/main/java/tld/domain/me/classport/plugin/MetadataAdder.java:103-106 | visitEnd inserts the annotation first if the flag is clear, then passes the end on |
| AnnotationAdder.AnnotationAdder.VisitOther | maven-plugin/src/main/java/tld/domain/me/classport/plugin/MetadataAdder.java:35 | a visit call the adder does not override is passed on unchanged |
| AnnotationAdder.AnnotationAdder.AddAnnotationCalls | maven-plugin/src/main/java/tld/domain/me/classport/plugin/MetadataAdder.java:108-133 | addAnnotation writes the annotation only when the flag is clear and the writer accepts it, then sets the flag |
| AnnotationAdder.AnnotationAdder.EmitElements | maven-plugin/src/main/java/tld/domain/me/classport/plugin/MetadataAdder.java:113-129 | the element loop writes each element's calls in order; a getter that throws is caught and ends the loop; the flag is untouched |
| AnnotationAdder.AnnotationAdder.EmitValue | maven-plugin/src/main/java/tld/domain/me/classport/plugin/MetadataAdder.java:117-124 | a `String[]` value is written as an array of its strings, any other value as one named value |
| AnnotationAdder.AnnotationAdder.EmitArray | maven-plugin/src/main/java/tld/domain/me/classport/plugin/MetadataAdder.java:119-122 | each string of the array is written once, in order, then the array is closed |
| AnnotationAdder.EmitSnoc | maven-plugin/src/main/java/tld/domain/me/classport/plugin/MetadataAdder.java:114-125 | one more element appends its calls, or ends the loop when its getter throws |
| AnnotationAdder.EmitStopsAtFailure | maven-plugin/src/main/java/tld/domain/me/classport/plugin/MetadataAdder.java:127-129 | after a getter has thrown, later elements write nothing |
| AnnotationAdder.Accept | maven-plugin/src/main/java/tld/domain/me/classport/plugin/MetadataAdder.java:154 | `ClassReader.accept` delivers the class's visit calls to the adder one by one, in order |
| AnnotationAdder.Forwarded | maven-plugin/src/main/java/tld/domain/me/classport/plugin/MetadataAdder.java:50 | no more passed-on events than calls |
| AnnotationAdder.ForwardedConcat | maven-plugin/src/main/java/tld/domain/me/classport/plugin/MetadataAdder.java:50 | the passed-on events of two call lists are those of each, in order |
| AnnotationAdder.InsertionCalls | maven-plugin/src/main/java/tld/domain/me/classport/plugin/MetadataAdder.java:108-133 | an insertion passes nothing on and adds exactly one annotation |
| AnnotationAdder.EmitCalls | maven-plugin/src/main/java/tld/domain/me/classport/plugin/MetadataAdder.java:114-125 | the element calls pass nothing on and add no annotation |
| AnnotationAdder.PassedAll | maven-plugin/src/main/java/tld/domain/me/classport/plugin/MetadataAdder.java:47-106 | the events as the next visitor receives them, one per event |
| AnnotationAdder.StepForwards | maven-plugin/src/main/java/tld/domain/me/classport/plugin/MetadataAdder.java:47-106 | each visit call passes on exactly its own event |
| AnnotationAdder.ForwardedInOrder | maven-plugin/src/main/java/tld/domain/me/classport/plugin/MetadataAdder.java:47-106 | every visit call is passed on in order with only the version raised: the adder drops, reorders and duplicates nothing |
| AnnotationAdder.AddedCountConcat | maven-plugin/src/main/java/tld/domain/me/classport/plugin/MetadataAdder.java:108-133 | the inserted annotations of two call lists add up |
| AnnotationAdder.StepCount | maven-plugin/src/main/java/tld/domain/me/classport/plugin/MetadataAdder.java:57-106 | one visit call inserts once exactly when it is an insertion point met with the flag clear; the flag is set by an insertion point or the marker annotation and is never cleared |
| AnnotationAdder.AtMostOnce | maven-plugin/src/main/java/tld/domain/me/classport/plugin/MetadataAdder.java:108-133 | the annotation is inserted at most once, and not at all when the flag is already set |
| AnnotationAdder.PresentStays | maven-plugin/src/main/java/tld/domain/me/classport/plugin/MetadataAdder.java:37 | the flag, once set, stays set |
| AnnotationAdder.InsertedIff | maven-plugin/src/main/java/tld/domain/me/classport/plugin/MetadataAdder.java:57-133 | a class gets the annotation exactly when an inner class, field, method or end comes before any visible marker annotation |
| AnnotationAdder.AddedBeforeMembers | maven-plugin/src/main/java/tld/domain/me/classport/plugin/MetadataAdder.java:70-106 | the inserted annotation precedes every passed-on inner class, field, method and end |
| AnnotationAdder.StepKeepsAddedFirst | maven-plugin/src/main/java/tld/domain/me/classport/plugin/MetadataAdder.java:70-106 | one visit call keeps the inserted annotation ahead of the members |
| AnnotationAdder.AlreadyAnnotated | maven-plugin/src/main/java/tld/domain/me/classport/plugin/MetadataAdder.java:57-63 | a class read in reader order that already carries an annotation visitAnnotation recognises gets no second one |
| TldMetadataAdder.Add | src/main/java/tld/domain/me/MetadataAdder.java:130-133 | add() writes exactly the calls the adder makes for the class's visit calls, with marker "Classport" |
| TldMetadataAdder.InsertedAnnotation | src/main/java/tld/domain/me/MetadataAdder.java:103-112 | the inserted annotation is "Classport" with the one element testAnnotationField = "It works :D", then closed |
| TldMetadataAdder.AddTwiceAddsOnce | src/main/java/tld/domain/me/MetadataAdder.java:52-58 | a class that already carries the "Classport" annotation gets no second one |
| PluginMetadataAdder.Descriptor | maven-plugin/src/main/java/tld/domain/me/classport/plugin/MetadataAdder.java:110 | `descriptorString()` is `L`, the binary name with `.` made `/`, and `;` |
| PluginMetadataAdder.CorrectedConfig | maven-plugin/src/main/java/tld/domain/me/classport/plugin/MetadataAdder.java:59 | the corrected adder recognises the descriptor it writes |
| PluginMetadataAdder.AddAsWritten | maven-plugin/src/main/java/tld/domain/me/classport/plugin/MetadataAdder.java:153-156 | add() as written: the calls the adder makes when recognising the annotation by the class name |
| PluginMetadataAdder.Add | maven-plugin/src/main/java/tld/domain/me/classport/plugin/MetadataAdder.java:153-156 | add() with the annotation recognised by its descriptor |
| PluginMetadataAdder.NameIsNoDescriptor | maven-plugin/src/main/java/tld/domain/me/classport/plugin/MetadataAdder.java:59 | the class name never equals a descriptor, so the check at line 59 never fires |
| PluginMetadataAdder.DuplicateAsWritten | maven-plugin/src/main/java/tld/domain/me/classport/plugin/MetadataAdder.java:59 | as written, a class that already carries the annotation and has one method gets a second one |
| PluginMetadataAdder.AsWrittenAlwaysInserts | maven-plugin/src/main/java/tld/domain/me/classport/plugin/MetadataAdder.java:57-106 | as written, every class with an inner class, field, method or end gets the annotation, whatever annotations it already carries |
| PluginMetadataAdder.CorrectedAddsOnce | maven-plugin/src/main/java/tld/domain/me/classport/plugin/MetadataAdder.java:57-133 | with descriptors compared, a class that already carries the annotation gets none |
| TldAgent.DependencyLines | classport-agent/src/main/java/tld/domain/me/classport/agent/ClassportAgent.java:42-45 | one line per child id, each the two-tab prefix followed by the id, in order |
| TldAgent.Render | classport-agent/src/main/java/tld/domain/me/classport/agent/ClassportAgent.java:23-52 | at least five lines per map entry, the first being the first class name with `/` made `.` |
| TldAgent.RenderSnoc | classport-agent/src/main/java/tld/domain/me/classport/agent/ClassportAgent.java:25-47 | the text of one more map entry follows the text of the entries before it |
| TldAgent.WriteSbom | classport-agent/src/main/java/tld/domain/me/classport/agent/ClassportAgent.java:23-52 | writeSBOM writes exactly the lines of every map entry, entry after entry in map order |
| TldAgent.WriteEntry | classport-agent/src/main/java/tld/domain/me/classport/agent/ClassportAgent.java:26-46 | one map entry's lines: the class name with `/` made `.`, the id, artefact, group and version lines, and a dependency block only for a non-empty child-id array |
| TldAgent.WriteDependencies | classport-agent/src/main/java/tld/domain/me/classport/agent/ClassportAgent.java:42-45 | the loop writes one line per child id, in order |
| TldAgent.TakeDependencies | classport-agent/src/main/java/tld/domain/me/classport/agent/ClassportAgent.java:42-45 | reading the dependency lines back never consumes more lines than there are |
| TldAgent.ParseEntry | classport-agent/src/main/java/tld/domain/me/classport/agent/ClassportAgent.java:26-46 | reading one entry back always consumes at least one line |
| TldAgent.TakeDependenciesOf | classport-agent/src/main/java/tld/domain/me/classport/agent/ClassportAgent.java:42-45 | the dependency lines read back as exactly the child ids, leaving the following entries |
| TldAgent.FieldOf | classport-agent/src/main/java/tld/domain/me/classport/agent/ClassportAgent.java:29-36 | a field line reads back as the value written after its prefix |
| TldAgent.ParseEntryOf | classport-agent/src/main/java/tld/domain/me/classport/agent/ClassportAgent.java:26-46 | one entry's text reads back as the dotted class name, its four fields and its child ids, when the name does not start with a tab |
| TldAgent.ShownAll | classport-agent/src/main/java/tld/domain/me/classport/agent/ClassportAgent.java:25-47 | what the text says about each map entry, one per entry, in order |
| TldAgent.RenderRoundTrip | classport-agent/src/main/java/tld/domain/me/classport/agent/ClassportAgent.java:23-52 | the SBOM text reads back as every entry's dotted name, fields and child ids, in map order, when no class name starts with a tab |
| TldAgent.RenderStarts | classport-agent/src/main/java/tld/domain/me/classport/agent/ClassportAgent.java:27 | a non-empty SBOM text starts with a class name line |
| TldAgent.EntriesIn | classport-agent/src/main/java/tld/domain/me/classport/agent/ClassportAgent.java:25 | the map's entries listed in a given `entrySet()` order: one per listed key, carrying that key's value |
| TldAgent.EntriesInIsMap | classport-agent/src/main/java/tld/domain/me/classport/agent/ClassportAgent.java:20-25 | listed in any `entrySet()` order the entries are exactly the map's entries and no class name occurs twice |
| TldAgent.ClassportAgent.constructor | classport-agent/src/main/java/tld/domain/me/classport/agent/ClassportAgent.java:20-21 | the SBOM map and the list of classes without annotations start empty |
| TldAgent.ClassportAgent.Transform | classport-agent/src/main/java/tld/domain/me/classport/agent/ClassportAgent.java:57-79 | transform always returns null; a class with an annotation is put into the SBOM map under its name, replacing any earlier entry, one without is appended to the list, and a read that throws changes neither |
| TldAgent.ClassportAgent.Shutdown | classport-agent/src/main/java/tld/domain/me/classport/agent/ClassportAgent.java:83-89 | the shutdown hook writes the SBOM text of the map as it stands, in whatever `entrySet()` order the map has |
| NativeAgent.Advance | native-agent/agent.c:61-92 | every non-Utf8 case moves the cursor by one to nine bytes; an unknown tag by its tag byte only |
| NativeAgent.CString | native-agent/agent.c:35-37 | the C string of a copied entry is no longer than the copied bytes |
| NativeAgent.CStringStopsAtNul | native-agent/agent.c:35-39 | `strcmp` and `printf` see exactly the bytes before the first NUL of the entry |
| NativeAgent.EntryAt | native-agent/agent.c:28-93 | the entry at a cursor has that offset and tag; a Utf8 entry spans three bytes plus its big-endian length and can be read only when that fits the buffer; any other tag spans its `Advance` |
| NativeAgent.React | native-agent/agent.c:31-92 | one entry prints at most one line; an entry that is not Utf8 leaves the flag and the stored key as they were, and the marker always sets the flag |
| NativeAgent.ScanFrom | native-agent/agent.c:24-95 | the walk prints at most one line per byte it visits, and fails when the entry at the cursor runs past the buffer |
| NativeAgent.ProgressStart | native-agent/agent.c:25-27 | before the loop nothing has been printed and all of the walk is still to come |
| NativeAgent.ProgressDone | native-agent/agent.c:27 | when the cursor reaches the byte count the loop has printed everything the walk prints |
| NativeAgent.ScanStep | native-agent/agent.c:27-94 | the walk prints one entry's output and then the rest of the walk from past that entry |
| NativeAgent.ProgressStep | native-agent/agent.c:27-94 | one turn of the loop keeps the printed output a prefix of the walk's |
| NativeAgent.ScanIsRun | native-agent/agent.c:24-95 | the one-pass walk prints what the state machine prints over the entries the cursor visits, and reads past the buffer exactly when visiting them does |
| NativeAgent.EntriesStep | native-agent/agent.c:27-94 | the visited entries from a cursor are its entry followed by those from past it |
| NativeAgent.Run | native-agent/agent.c:31-92 | the state machine prints at most one line per visited entry |
| NativeAgent.Utf8Case | native-agent/agent.c:31-60 | the Utf8 case reacts to the entry's C string as the state machine does and moves past the length, the bytes and the loop's increment |
| NativeAgent.OtherCase | native-agent/agent.c:61-92 | a known tag skips its payload silently; an unknown tag prints one stderr line and moves one byte |
| NativeAgent.VisitEntry | native-agent/agent.c:28-93 | one turn of the loop is the state machine's reaction to the entry at the cursor |
| NativeAgent.ParseConstantPool | native-agent/agent.c:24-95 | `parse_constant_pool` prints exactly the walk's output over the whole buffer, for buffers the walk stays within |
| NativeAgent.AdvanceMatchesInjector | native-agent/agent.c:61-92 | the agent steps over every non-Utf8 entry as the injector's pool walker does, except CONSTANT_Dynamic (tag 17), which it does not know |
| NativeAgent.SameStep | native-agent/agent.c:28-93 | where the injector's walker reads an entry other than CONSTANT_Dynamic, the agent reads one of the same size |
| NativeAgent.EntriesMatchInjectorWalk | native-agent/agent.c:24-95 | on a pool the injector walks exactly to its end, without CONSTANT_Dynamic, the agent visits the same entries with the same offsets, tags and sizes |
| NativeAgent.DynamicEntryDiverges | native-agent/agent.c:90-92 | a CONSTANT_Dynamic entry, one entry to the injector, is five one-byte entries to the agent |
| NativeAgent.PlainTail | native-agent/agent.c:47 | dropping the first entry keeps a list of plain Utf8 texts and known tags |
| NativeAgent.ElementsPairUp | native-agent/agent.c:47-55 | after the marker, the Utf8 texts other than `isDirectDependency` are printed two at a time as `key: value`, non-Utf8 entries changing nothing |
| NativeAgent.PairStep | native-agent/agent.c:47-55 | one entry after the marker: a stored key and a text make a printed pair, a text without a key becomes the key, anything else changes nothing |
| NativeAgent.NoMarkerNoPairs | native-agent/agent.c:39-55 | before any marker the agent prints only unknown-tag lines |
| NativeAgent.KeyOutlivesAnnotation | native-agent/agent.c:45-55 | `RuntimeVisibleAnnotations` clears the flag but not a stored key, which is then printed with the next annotation's first text |
| SbomTree.Values | classport-commons/src/main/java/io/github/project/classport/commons/ClassportProject.java:43-46 | `values()` yields one record per key, in the map's iteration order |
| SbomTree.DirectDeps | classport-commons/src/main/java/io/github/project/classport/commons/ClassportProject.java:43-46 | the filter keeps exactly the records marked as direct dependencies, in order |
| SbomTree.KeyedIds | classport-commons/src/main/java/io/github/project/classport/commons/ClassportProject.java:49-56 | exactly the ids of direct dependencies that are themselves SBOM keys |
| SbomTree.KeepKeys | classport-commons/src/main/java/io/github/chains_project/classport/commons/ClassportProject.java:19-29 | the ids kept are exactly those of the list that are SBOM keys, in order |
| SbomTree.KeepKeysPrefix | classport-commons/src/main/java/io/github/chains_project/classport/commons/ClassportProject.java:19-29 | the kept keys grow one candidate id at a time |
| SbomTree.Size | classport-commons/src/main/java/io/github/project/classport/commons/ClassportProject.java:86-93 | a tree has at least its own node |
| SbomTree.Ids | classport-commons/src/main/java/io/github/project/classport/commons/ClassportProject.java:86-93 | the ids of a list of nodes, one per node, in order |
| SbomTree.IdsConcat | classport-commons/src/main/java/io/github/project/classport/commons/ClassportProject.java:86-93 | ids distribute over concatenation |
| SbomTree.TextWriter.constructor | classport-commons/src/main/java/io/github/project/classport/commons/ClassportProject.java:61 | a fresh writer holds no text |
| SbomTree.TextWriter.Write | classport-commons/src/main/java/io/github/project/classport/commons/ClassportProject.java:171 | `write(s)` appends s |
| SbomTree.RepeatText | classport-commons/src/main/java/io/github/project/classport/commons/ClassportProject.java:162-163 | the text repeated k times is k times as long |
| SbomTree.Indent | classport-commons/src/main/java/io/github/project/classport/commons/ClassportProject.java:161-169 | every nesting level takes three characters of indentation |
| SbomTree.IndentShape | classport-commons/src/main/java/io/github/project/classport/commons/ClassportProject.java:161-169 | below the top, the indentation is one nesting delimiter per enclosing level and then `\- ` for a last child or `+- ` for any other |
| SbomTree.Render | classport-commons/src/main/java/io/github/project/classport/commons/ClassportProject.java:158-180 | a printed node takes more characters than its level's indentation and its id |
| SbomTree.RenderShape | classport-commons/src/main/java/io/github/project/classport/commons/ClassportProject.java:158-180 | a printed node starts with its level's indentation and ends with a line break |
| SbomTree.WriteIndent | classport-commons/src/main/java/io/github/project/classport/commons/ClassportProject.java:161-169 | the pretty-printing writes exactly the indentation of the level |
| SbomTree.WriteNode | classport-commons/src/main/java/io/github/project/classport/commons/ClassportProject.java:158-180 | `_writeTree` writes the node's line and then its children one level deeper, only the final child marked last |
| SbomTree.WriteChildren | classport-commons/src/main/java/io/github/project/classport/commons/ClassportProject.java:173-176 | the child loop writes each child in order, only the final one marked last |
| SbomTree.LineBreaksConcat | classport-commons/src/main/java/io/github/project/classport/commons/ClassportProject.java:172 | line breaks add up over concatenation |
| SbomTree.RenderLineCount | classport-commons/src/main/java/io/github/project/classport/commons/ClassportProject.java:158-180 | the printed tree has exactly one line per node occurrence, when no id holds a line break |
| SbomTree.IndentHasNoBreak | classport-commons/src/main/java/io/github/project/classport/commons/ClassportProject.java:161-169 | indentation holds no line break |
| SbomTree.RenderFirstLineCount | classport-commons/src/main/java/io/github/project/classport/commons/ClassportProject.java:173-176 | the first k children print one line per node occurrence below them |
| SbomTree.ForestLineCount | classport-commons/src/main/java/io/github/project/classport/commons/ClassportProject.java:71-75 | a printed list of top nodes has one line per node occurrence |
| SbomTree.ForestTextShape | classport-commons/src/main/java/io/github/project/classport/commons/ClassportProject.java:71-75 | the top nodes print nothing when there are none, and otherwise text that ends with a line break |
| ProjectCommons.Put | classport-commons/src/main/java/io/github/project/classport/commons/ClassportProject.java:152 | `nodes.put(k, n)` maps k to n |
| ProjectCommons.ExtendsTrans | classport-commons/src/main/java/io/github/project/classport/commons/ClassportProject.java:152 | a memo that only grows keeps every node it ever held |
| ProjectCommons.PushShrinks | classport-commons/src/main/java/io/github/project/classport/commons/ClassportProject.java:142-149 | pushing a key not yet on the path leaves fewer keys off the path, which bounds the recursion |
| ProjectCommons.StripVersion | classport-commons/src/main/java/io/github/project/classport/commons/ClassportProject.java:115 | the id without its version is the text before its last `:`; an id without `:` throws StringIndexOutOfBoundsException |
| ProjectCommons.FirstContaining | classport-commons/src/main/java/io/github/project/classport/commons/ClassportProject.java:117-123 | the first memoised key, in iteration order, that contains the text, or -1 exactly when none does |
| ProjectCommons.LastContaining | classport-commons/src/main/java/io/github/project/classport/commons/ClassportProject.java:132-137 | the last SBOM key, in iteration order, that contains the text, or -1 exactly when none does |
| ProjectCommons.Candidate | classport-commons/src/main/java/io/github/project/classport/commons/ClassportProject.java:126-138 | the new node's id is the child id when it is a key, else the last key containing the id without its version, else empty; a non-empty candidate is always a key |
| ProjectCommons.Children | classport-commons/src/main/java/io/github/project/classport/commons/ClassportProject.java:107-156 | building the children never drops a memoised node, never memoises a key on the path, and yields at most one node per child id |
| ProjectCommons.Resolve | classport-commons/src/main/java/io/github/project/classport/commons/ClassportProject.java:108-154 | one child id yields at most one node and only grows the memo |
| ProjectCommons.Expand | classport-commons/src/main/java/io/github/project/classport/commons/ClassportProject.java:140-153 | a new node carries its record's id, is memoised under its key, and is the one node yielded |
| ProjectCommons.ChildrenFromSbom | classport-commons/src/main/java/io/github/project/classport/commons/ClassportProject.java:107-156 | every node built, whatever memo hits and version fallbacks are taken, is printed under the id of some SBOM record |
| ProjectCommons.ResolveFromSbom | classport-commons/src/main/java/io/github/project/classport/commons/ClassportProject.java:108-154 | the same for one child id |
| ProjectCommons.ExpandFromSbom | classport-commons/src/main/java/io/github/project/classport/commons/ClassportProject.java:140-153 | the same for a newly expanded node |
| ProjectCommons.PutFromSbom | classport-commons/src/main/java/io/github/project/classport/commons/ClassportProject.java:152 | memoising a node built from the SBOM keeps the memo built from the SBOM |
| ProjectCommons.MemoHitReusesNode | classport-commons/src/main/java/io/github/project/classport/commons/ClassportProject.java:110-111 | a memoised child id gets the very node built before, and nothing is expanded again |
| ProjectCommons.MissingColonThrows | classport-commons/src/main/java/io/github/project/classport/commons/ClassportProject.java:115 | a child id that is not memoised and has no `:` makes the whole construction throw StringIndexOutOfBoundsException |
| ProjectCommons.FirstRoot | classport-commons/src/main/java/io/github/project/classport/commons/ClassportProject.java:35-39 | the first record, in `values()` order, whose id is its own source project id, or -1 exactly when there is none |
| ProjectCommons.DirectFrom | classport-commons/src/main/java/io/github/project/classport/commons/ClassportProject.java:48-56 | the direct-dependency loop leaves a consistent memo |
| ProjectCommons.DirectFromSbom | classport-commons/src/main/java/io/github/project/classport/commons/ClassportProject.java:48-56 | every direct-dependency node is built from an SBOM record |
| ProjectCommons.ProjectFromSbom | classport-commons/src/main/java/io/github/project/classport/commons/ClassportProject.java:27-59 | the root and every direct-dependency node of a constructed project come from the SBOM's records |
| ProjectCommons.BuildProject | classport-commons/src/main/java/io/github/project/classport/commons/ClassportProject.java:27-59 | an empty SBOM never fails; a successful construction leaves a consistent memo, and when a root is found it is a record that is its own source project, with no root id and no direct dependencies |
| ProjectCommons.ForestIsKeyedDirectDeps | classport-commons/src/main/java/io/github/project/classport/commons/ClassportProject.java:48-56 | the top nodes are exactly the direct dependencies that are SBOM keys, in order, and the root id is the last direct dependency's source project (unchanged when there is none) |
| ProjectCommons.EmptySbomTree | classport-commons/src/main/java/io/github/project/classport/commons/ClassportProject.java:30-33 | an empty SBOM gives the `<Unknown>` root and no nodes, and prints the single line `<Unknown> (parent-only artefact)` |
| ProjectCommons.ClassportProject.Init | classport-commons/src/main/java/io/github/project/classport/commons/ClassportProject.java:27-29 | the constructor starts with the SBOM, an empty memo and an empty path |
| ProjectCommons.ClassportProject.FindMemoised | classport-commons/src/main/java/io/github/project/classport/commons/ClassportProject.java:117-123 | the loop over `nodes.keySet()` finds the first memoised key containing the text |
| ProjectCommons.ClassportProject.FindPackaged | classport-commons/src/main/java/io/github/project/classport/commons/ClassportProject.java:132-137 | the loop over `sbom.keySet()` ends with the last key containing the text |
| ProjectCommons.ClassportProject.BuildGraph | classport-commons/src/main/java/io/github/project/classport/commons/ClassportProject.java:107-156 | buildGraph yields exactly the child nodes and memo `Children` describes, fails exactly when it does, and restores the path |
| ProjectCommons.ClassportProject.ResolveChild | classport-commons/src/main/java/io/github/project/classport/commons/ClassportProject.java:108-154 | one pass of the loop yields exactly what `Resolve` describes |
| ProjectCommons.ClassportProject.ExpandNode | classport-commons/src/main/java/io/github/project/classport/commons/ClassportProject.java:142-153 | push, recurse, pop and memoise yield exactly what `Expand` describes |
| ProjectCommons.ClassportProject.Push | classport-commons/src/main/java/io/github/project/classport/commons/ClassportProject.java:147 | `path.push(k)` appends k and changes nothing else |
| ProjectCommons.ClassportProject.Pop | classport-commons/src/main/java/io/github/project/classport/commons/ClassportProject.java:149 | `path.pop()` removes the last key and changes nothing else |
| ProjectCommons.ClassportProject.Memoise | classport-commons/src/main/java/io/github/project/classport/commons/ClassportProject.java:152 | `nodes.put` updates the memo and changes nothing else |
| ProjectCommons.ClassportProject.Create | classport-commons/src/main/java/io/github/project/classport/commons/ClassportProject.java:27-59 | the constructor succeeds exactly when `BuildProject` does, and then holds its root, root id, direct dependencies and memo |
| ProjectCommons.ClassportProject.FindRoot | classport-commons/src/main/java/io/github/project/classport/commons/ClassportProject.java:35-39 | the root search finds the first record whose id is its source project's |
| ProjectCommons.ClassportProject.BuildDirect | classport-commons/src/main/java/io/github/project/classport/commons/ClassportProject.java:43-56 | the direct-dependency loop sets the fields `DirectFrom` describes, and fails exactly when it does |
| ProjectCommons.ClassportProject.WriteTree | classport-commons/src/main/java/io/github/project/classport/commons/ClassportProject.java:61-84 | writeTree prints the root's tree, or the parent-only line followed by the direct dependencies at level 1, only the final one marked last |
| ProjectCommons.TreeText | classport-commons/src/main/java/io/github/project/classport/commons/ClassportProject.java:61-84 | the printed tree is never empty and ends with a newline |
| ProjectCommons.ChildrenStep | classport-commons/src/main/java/io/github/project/classport/commons/ClassportProject.java:108-155 | the child loop's progress carries over one child id |
| ProjectCommons.ChildrenFails | classport-commons/src/main/java/io/github/project/classport/commons/ClassportProject.java:108-155 | a failing child id makes the whole loop fail |
| ProjectCommons.DirectStepKey | classport-commons/src/main/java/io/github/project/classport/commons/ClassportProject.java:49-55 | a direct dependency that is a key adds its built node and sets the root id |
| ProjectCommons.DirectStepOther | classport-commons/src/main/java/io/github/project/classport/commons/ClassportProject.java:49-51 | a direct dependency that is not a key only sets the root id |
| ProjectCommons.DirectFails | classport-commons/src/main/java/io/github/project/classport/commons/ClassportProject.java:52-53 | a failing build of a direct dependency makes the constructor fail |
| ChainsCommons.Tree | classport-commons/src/main/java/io/github/chains_project/classport/commons/ClassportProject.java:54-76 | the node built for a key carries that key as its id |
| ChainsCommons.KidsAreKeptChildren | classport-commons/src/main/java/io/github/chains_project/classport/commons/ClassportProject.java:69-76 | a node's children are its child ids filtered to SBOM keys, in order |
| ChainsCommons.KidsAreRebuilt | classport-commons/src/main/java/io/github/chains_project/classport/commons/ClassportProject.java:69-76 | every child is the full tree of its own key: a key met twice is built twice, nothing is shared |
| ChainsCommons.NewNode | classport-commons/src/main/java/io/github/chains_project/classport/commons/ClassportProject.java:54-67 | the SBOMNode constructor throws NoSuchElementException exactly for an id that is not an SBOM key, and otherwise builds a node with that id; only the keys reachable from that id need a rank |
| ChainsCommons.TopNodes | classport-commons/src/main/java/io/github/chains_project/classport/commons/ClassportProject.java:25-28 | each top node is the full tree of an SBOM key |
| ChainsCommons.TopNodesAreKeyedDeps | classport-commons/src/main/java/io/github/chains_project/classport/commons/ClassportProject.java:19-29 | the top nodes are exactly the direct dependencies that are SBOM keys, in `values()` order |
| ChainsCommons.RanksDepsPrefix | classport-commons/src/main/java/io/github/chains_project/classport/commons/ClassportProject.java:25-28 | the direct dependencies the loop has passed start from ranked keys |
| ChainsCommons.UnreachableCycleIsAccepted | classport-commons/src/main/java/io/github/chains_project/classport/commons/ClassportProject.java:19-29 | an SBOM whose only cycle lies among keys no direct dependency reaches meets the constructor's demand |
| ChainsCommons.KeyedIdsSnoc | classport-commons/src/main/java/io/github/chains_project/classport/commons/ClassportProject.java:25-28 | one more direct dependency adds its id exactly when it is a key |
| ChainsCommons.TreeAllKeys | classport-commons/src/main/java/io/github/chains_project/classport/commons/ClassportProject.java:69-76 | every node of a built tree carries an SBOM key |
| ChainsCommons.KidsAllKeys | classport-commons/src/main/java/io/github/chains_project/classport/commons/ClassportProject.java:69-76 | the same for every child built by the loop |
| ChainsCommons.ClassportProject.constructor | classport-commons/src/main/java/io/github/chains_project/classport/commons/ClassportProject.java:19-29 | the constructor keeps one built tree per direct dependency that is an SBOM key; it asks for a rank only on the keys reachable from the direct dependencies, which is exactly when the Java recursion returns |
| ChainsCommons.ClassportProject.WriteTree | classport-commons/src/main/java/io/github/chains_project/classport/commons/ClassportProject.java:31-46 | writeTree prints each top node at level 1 with the `+- ` / `\- ` glyphs, only the final one marked last |
| ChainsCommons.BuildTopNodes | classport-commons/src/main/java/io/github/chains_project/classport/commons/ClassportProject.java:25-28 | the constructor's loop builds exactly `TopNodes` |
| ChainsCommons.NewSbomNode | classport-commons/src/main/java/io/github/chains_project/classport/commons/ClassportProject.java:54-67 | the SBOMNode constructor yields exactly `NewNode` |
| ChainsCommons.BuildGraph | classport-commons/src/main/java/io/github/chains_project/classport/commons/ClassportProject.java:69-76 | buildGraph builds a node for each child id that is an SBOM key, in order |
| ChainsAgent.ArrowIndent | classport-agent/src/main/java/io/github/chains_project/classport/agent/ClassportProject.java:83-88 | the indentation of level n takes four characters per level |
| ChainsAgent.ArrowIndentShape | classport-agent/src/main/java/io/github/chains_project/classport/agent/ClassportProject.java:83-88 | below level 0 the indentation is `----` per enclosing level below the first, then `>   ` |
| ChainsAgent.ArrowRender | classport-agent/src/main/java/io/github/chains_project/classport/agent/ClassportProject.java:80-98 | a node's text takes more characters than its level's arrow indentation and its id |
| ChainsAgent.ArrowRenderShape | classport-agent/src/main/java/io/github/chains_project/classport/agent/ClassportProject.java:80-98 | a node's text opens with its level's arrow indentation and ends with a newline |
| ChainsAgent.WriteArrowIndent | classport-agent/src/main/java/io/github/chains_project/classport/agent/ClassportProject.java:83-88 | the pretty-printing writes exactly the arrow indentation |
| ChainsAgent.WriteArrowNode | classport-agent/src/main/java/io/github/chains_project/classport/agent/ClassportProject.java:80-98 | `_writeTree` writes the node's line, then its children one level deeper, in order |
| ChainsAgent.WriteArrowChildren | classport-agent/src/main/java/io/github/chains_project/classport/agent/ClassportProject.java:92-94 | the child loop writes each child in order |
| ChainsAgent.ClassportProject.constructor | classport-agent/src/main/java/io/github/chains_project/classport/agent/ClassportProject.java:21-31 | the agent's copy builds the same top nodes as the commons variant, under the same demand: a rank on the keys reachable from the direct dependencies only |
| ChainsAgent.ClassportProject.WriteTree | classport-agent/src/main/java/io/github/chains_project/classport/agent/ClassportProject.java:33-44 | writeTree prints every top node from level 0 |
| ChainsAgent.ArrowLineCount | classport-agent/src/main/java/io/github/chains_project/classport/agent/ClassportProject.java:80-98 | the printed tree has one line per node occurrence |
| ChainsAgent.ArrowIndentHasNoBreak | classport-agent/src/main/java/io/github/chains_project/classport/agent/ClassportProject.java:83-88 | arrow indentation holds no line break |
| ChainsAgent.ArrowFirstLineCount | classport-agent/src/main/java/io/github/chains_project/classport/agent/ClassportProject.java:92-94 | the first k children print one line per node occurrence below them |
| ChainsAgent.SameLineCountAsGlyphs | classport-agent/src/main/java/io/github/chains_project/classport/agent/ClassportProject.java:33-36 | the agent's printout and the commons variant's printout of the same forest have the same number of lines |
| ConstantPool.FixedEntrySize | classport-commons/src/main/java/io/github/project/classport/commons/AnnotationConstantPool.java:410-432 | every entry other than Utf8 spans one to nine bytes, tag included |
| ConstantPool.Slots | classport-commons/src/main/java/io/github/project/classport/commons/AnnotationConstantPool.java:418-421 | an entry takes two index slots for Long and Double and one otherwise |
| ConstantPool.StepAt | classport-commons/src/main/java/io/github/project/classport/commons/AnnotationConstantPool.java:408-432 | a step reads the tag at the position and stays inside the buffer; a Utf8 entry spans three bytes plus its u2 length, any other its fixed size; it takes the tag's slots |
| ConstantPool.SkipPool | classport-commons/src/main/java/io/github/project/classport/commons/AnnotationConstantPool.java:406-434 | skipping the pool never moves backwards nor past the end of the buffer |
| ConstantPool.WalkStep | classport-commons/src/main/java/io/github/project/classport/commons/AnnotationConstantPool.java:407-433 | skipping and walking proceed one entry at a time, each entry followed by the walk from past it |
| ConstantPool.Walk | classport-commons/src/main/java/io/github/project/classport/commons/AnnotationConstantPool.java:406-434 | a walk over the remaining slots visits at most one entry per slot, and none when no slot remains |
| ConstantPool.WalkEntriesWellFormed | classport-commons/src/main/java/io/github/project/classport/commons/AnnotationConstantPool.java:366-401 | every visited entry lies inside the buffer, the first at the start position with the start index, and indices never go below the start |
| ConstantPool.FindUtf8IsFirstMatch | classport-commons/src/main/java/io/github/project/classport/commons/AnnotationConstantPool.java:364-404 | findUtf8InConstantPool returns the index of the first Utf8 entry equal to the target, and -1 exactly when no visited entry is one |
| ConstantPool.FindUtf8From | classport-commons/src/main/java/io/github/project/classport/commons/AnnotationConstantPool.java:364-404 | the search yields -1 or a slot index no smaller than the one it starts from |
| ConstantPool.SkipPoolIsWalkEnd | classport-commons/src/main/java/io/github/project/classport/commons/AnnotationConstantPool.java:100-102 | skipping the pool succeeds exactly when walking it does, and ends where the last entry ends |
| ConstantPool.StepOnSlice | classport-commons/src/main/java/io/github/project/classport/commons/AnnotationConstantPool.java:104-108 | an entry read inside the copied pool bytes is the same entry read in the class bytes |
| ConstantPool.SkipPoolOnSlice | classport-commons/src/main/java/io/github/project/classport/commons/AnnotationConstantPool.java:104-108 | skipping over the copied pool bytes alone ends at their end |
| ConstantPool.FindInSkippedPoolSucceeds | classport-commons/src/main/java/io/github/project/classport/commons/AnnotationConstantPool.java:104-108 | searching the copied pool never throws once the pool was skipped |
| ConstantPool.EncodePoolSnoc | classport-commons/src/main/java/io/github/project/classport/commons/AnnotationConstantPool.java:77-85 | writing one more entry appends its bytes |
| ConstantPool.EntryStepBack | classport-commons/src/main/java/io/github/project/classport/commons/AnnotationConstantPool.java:77-85 | a written Utf8 or Integer entry is read back as one step of its own size, with its tag and text |
| ConstantPool.WalkBackCons | classport-commons/src/main/java/io/github/project/classport/commons/AnnotationConstantPool.java:77-85 | one more written entry in front of entries that read back also reads back |
| ConstantPool.EncodedPoolWalksBack | classport-commons/src/main/java/io/github/project/classport/commons/AnnotationConstantPool.java:18-85 | walking over written entries visits one entry per written entry, reads back each, and skipping them ends right after their bytes |
| ConstantPool.SkipFixedEntry | classport-commons/src/main/java/io/github/project/classport/commons/AnnotationConstantPool.java:415-431 | each non-Utf8 arm of the switch reads the rest of its entry, or throws when it does not fit |
| ConstantPool.SkipEntry | classport-commons/src/main/java/io/github/project/classport/commons/AnnotationConstantPool.java:408-432 | one turn of the switch moves past exactly the entry `StepAt` describes and reports its slots, and throws exactly when it does not fit |
| ConstantPool.ReadEntry | classport-commons/src/main/java/io/github/project/classport/commons/AnnotationConstantPool.java:369-399 | one turn of findUtf8InConstantPool's switch: it throws exactly when `StepAt` finds no entry; otherwise it moves past exactly that entry, returns its slots, and reports a match exactly when the entry is a Utf8 entry whose bytes equal the target |
| ConstantPool.SkipConstantPool | classport-commons/src/main/java/io/github/project/classport/commons/AnnotationConstantPool.java:406-434 | skipConstantPool leaves the cursor where `SkipPool` says, and throws exactly when it fails |
| ConstantPool.FindUtf8InConstantPool | classport-commons/src/main/java/io/github/project/classport/commons/AnnotationConstantPool.java:364-404 | findUtf8InConstantPool returns what `FindUtf8From` gives and throws exactly when it fails |
| ConstantPool.GetCPString | classport-commons/src/main/java/io/github/project/classport/commons/AnnotationConstantPool.java:295-338 | getCPString returns what `CPString` gives: the bytes of slot cpIndex when it is Utf8, the empty text for another tag, and throws exactly when a read fails |
| ConstantPool.CPString | classport-commons/src/main/java/io/github/project/classport/commons/AnnotationConstantPool.java:295-338 | the lookup needs the 10-byte class header; slot 1 or below reads the pool's first entry; a non-empty text fits in the class after the header and the entry's own tag and length |
| ConstantPool.TextAt | classport-commons/src/main/java/io/github/project/classport/commons/AnnotationConstantPool.java:330-337 | a non-empty text ends inside the bytes, after its entry's tag and length |
| ConstantPool.ReadText | classport-commons/src/main/java/io/github/project/classport/commons/AnnotationConstantPool.java:330-337 | the final reads of getCPString return the entry's text for a Utf8 tag and the empty text for any other |
| ClassFile.RvaNameIsAscii | classport-commons/src/main/java/io/github/project/classport/commons/AnnotationConstantPool.java:108 | "RuntimeVisibleAnnotations" is plain ASCII |
| ClassFile.RvaNameBytes | classport-commons/src/main/java/io/github/project/classport/commons/AnnotationConstantPool.java:285 | the attribute name to compare with is 25 bytes |
| ClassFile.RvaNameBytesAreAscii | classport-commons/src/main/java/io/github/project/classport/commons/AnnotationConstantPool.java:285 | those bytes are the ASCII codes of "RuntimeVisibleAnnotations" |
| ClassFile.ClassInfoEnd | classport-commons/src/main/java/io/github/project/classport/commons/AnnotationConstantPool.java:125-133 | access flags, this and super class and the interface table take at least eight bytes and fit the buffer |
| ClassFile.AttributeEnd | classport-commons/src/main/java/io/github/project/classport/commons/AnnotationConstantPool.java:149-152 | an attribute takes its six header bytes and its data, and fits the buffer; a negative length fails |
| ClassFile.SkipAttributes | classport-commons/src/main/java/io/github/project/classport/commons/AnnotationConstantPool.java:352-360 | a run of attributes moves forward exactly when it is not empty, and stays inside the buffer |
| ClassFile.MemberEnd | classport-commons/src/main/java/io/github/project/classport/commons/AnnotationConstantPool.java:344-360 | a field or method takes at least eight bytes and fits the buffer |
| ClassFile.SkipMemberList | classport-commons/src/main/java/io/github/project/classport/commons/AnnotationConstantPool.java:344-361 | a list of members moves forward exactly when it is not empty, and stays inside the buffer |
| ClassFile.SkipAttributesStep | classport-commons/src/main/java/io/github/project/classport/commons/AnnotationConstantPool.java:352-360 | a run of attributes is its first attribute followed by the rest |
| ClassFile.SkipMemberListStep | classport-commons/src/main/java/io/github/project/classport/commons/AnnotationConstantPool.java:344-361 | a list of members is its first member followed by the rest |
| ClassFile.SkipMembers | classport-commons/src/main/java/io/github/project/classport/commons/AnnotationConstantPool.java:340-362 | a fields or methods table takes its two-byte count and its members, inside the buffer |
| ClassFile.ParseAttributes | classport-commons/src/main/java/io/github/project/classport/commons/AnnotationConstantPool.java:148-166 | reading an attribute table yields exactly `count` attributes and moves forward exactly when it is not empty |
| ClassFile.ParseAttributesSkips | classport-commons/src/main/java/io/github/project/classport/commons/AnnotationConstantPool.java:148-179 | reading the table as values and skipping over it succeed together and end at the same place |
| ClassFile.AttributeEncodes | classport-commons/src/main/java/io/github/project/classport/commons/AnnotationConstantPool.java:149-152 | an attribute read from the bytes is valid and its encoding is the bytes it was read from |
| ClassFile.ParseAttributesEncodes | classport-commons/src/main/java/io/github/project/classport/commons/AnnotationConstantPool.java:172-179 | a table read from the bytes is valid and its encoding is exactly the bytes read |
| ClassFile.AttributeReadsBack | classport-commons/src/main/java/io/github/project/classport/commons/AnnotationConstantPool.java:162-164 | a written attribute reads back with its name index and data, wherever it sits |
| ClassFile.ParseAttributesCons | classport-commons/src/main/java/io/github/project/classport/commons/AnnotationConstantPool.java:148-166 | a table is its first attribute followed by the rest |
| ClassFile.EncodeParseAttributes | classport-commons/src/main/java/io/github/project/classport/commons/AnnotationConstantPool.java:162-164 | every valid table written out reads back as itself, ending right after its bytes |
| ClassFile.ParseAttributesConsOf | classport-commons/src/main/java/io/github/project/classport/commons/AnnotationConstantPool.java:148-166 | a table read as its first attribute then the rest reads as the whole |
| ClassFile.FirstAttributeReadsBack | classport-commons/src/main/java/io/github/project/classport/commons/AnnotationConstantPool.java:162-164 | the first attribute of a written table reads back, and the rest of the table follows it |
| ClassFile.EncodeAttributesConcat | classport-commons/src/main/java/io/github/project/classport/commons/AnnotationConstantPool.java:162-164 | writing two tables is writing one after the other |
| ClassFile.FindRvaFrom | classport-commons/src/main/java/io/github/project/classport/commons/AnnotationConstantPool.java:281-292 | the search returns -1 or the position of an attribute inside the run |
| ClassFile.NameLookups | classport-commons/src/main/java/io/github/project/classport/commons/AnnotationConstantPool.java:285 | one name lookup per attribute |
| ClassFile.RvaStepOnTable | classport-commons/src/main/java/io/github/project/classport/commons/AnnotationConstantPool.java:282-289 | where an attribute fits, a search step is its name lookup: a match stops, another name moves past the attribute, a failing lookup throws |
| ClassFile.FindRvaWalksTable | classport-commons/src/main/java/io/github/project/classport/commons/AnnotationConstantPool.java:276-293 | on a table that parses, the byte-level search is the search over its attributes' names |
| ClassFile.FirstRvaIsFirst | classport-commons/src/main/java/io/github/project/classport/commons/AnnotationConstantPool.java:281-292 | the search finds the first attribute named RuntimeVisibleAnnotations, returns -1 exactly when every name resolves to another, and throws exactly when a lookup fails before any match |
| ClassFile.FirstRvaFound | classport-commons/src/main/java/io/github/project/classport/commons/AnnotationConstantPool.java:285-286 | a found position names an attribute that matches, after only other names |
| ClassFile.FirstRvaNotFound | classport-commons/src/main/java/io/github/project/classport/commons/AnnotationConstantPool.java:292 | -1 exactly when every attribute resolves to another name |
| ClassFile.FirstRvaFails | classport-commons/src/main/java/io/github/project/classport/commons/AnnotationConstantPool.java:285 | the search throws exactly when a lookup fails before any match |
| ClassFile.CopyAttribute | classport-commons/src/main/java/io/github/project/classport/commons/AnnotationConstantPool.java:353-359 | one attribute is copied byte for byte, and the copy throws exactly when the attribute does not fit |
| ClassFile.CopyMemberHeader | classport-commons/src/main/java/io/github/project/classport/commons/AnnotationConstantPool.java:345-350 | the three u2s and the attribute count are copied byte for byte, and the count is returned |
| ClassFile.CopyAttributes | classport-commons/src/main/java/io/github/project/classport/commons/AnnotationConstantPool.java:352-360 | the inner loop copies the run of attributes byte for byte, and throws exactly when they do not fit |
| ClassFile.CopyMember | classport-commons/src/main/java/io/github/project/classport/commons/AnnotationConstantPool.java:345-360 | one field or method is copied byte for byte |
| ClassFile.CopyMemberList | classport-commons/src/main/java/io/github/project/classport/commons/AnnotationConstantPool.java:344-361 | the outer loop copies the members byte for byte |
| ClassFile.CopyMembers | classport-commons/src/main/java/io/github/project/classport/commons/AnnotationConstantPool.java:340-362 | copyMembers copies a fields or methods table byte for byte and leaves the cursor after it, and throws exactly when the table does not fit |
| ClassFile.SearchStep | classport-commons/src/main/java/io/github/project/classport/commons/AnnotationConstantPool.java:281-290 | one turn of the search loop agrees with one step of `FindRvaFrom` |
| ClassFile.FindRvaStep | classport-commons/src/main/java/io/github/project/classport/commons/AnnotationConstantPool.java:281-290 | the search is one step followed by the search from past the attribute |
| ClassFile.FindRuntimeVisibleAnnotationsAttribute | classport-commons/src/main/java/io/github/project/classport/commons/AnnotationConstantPool.java:276-293 | the search returns what `FindRvaFrom` gives from past the count, and throws exactly when it fails |
| ClassFile.SearchAttributes | classport-commons/src/main/java/io/github/project/classport/commons/AnnotationConstantPool.java:281-292 | the loop agrees with `FindRvaFrom` from the cursor |
| ClassFile.IsRuntimeVisibleAnnotations | classport-commons/src/main/java/io/github/project/classport/commons/AnnotationConstantPool.java:282-289 | one attribute: throws, matches, or moves past its data, as `RvaStep` says |
| ClassFile.CopiedTableEncodes | classport-commons/src/main/java/io/github/project/classport/commons/AnnotationConstantPool.java:172-179 | a table copied attribute by attribute is the encoding of what it parses to |
| Annotations.ParseValue | classport-commons/src/main/java/io/github/project/classport/commons/AnnotationConstantPool.java:230-274 | reading an element_value at a position moves forward and stays inside the bytes |
| Annotations.ParseValues | classport-commons/src/main/java/io/github/project/classport/commons/AnnotationConstantPool.java:253-259 | reading `count` array values yields exactly `count` values inside the bytes |
| Annotations.ParsePairs | classport-commons/src/main/java/io/github/project/classport/commons/AnnotationConstantPool.java:237-267 | reading `count` element pairs yields exactly `count` pairs inside the bytes |
| Annotations.ParseAnnotation | classport-commons/src/main/java/io/github/project/classport/commons/AnnotationConstantPool.java:230-268 | reading an annotation moves forward and stays inside the bytes |
| Annotations.ParseAnnotations | classport-commons/src/main/java/io/github/project/classport/commons/AnnotationConstantPool.java:202-210 | reading `count` annotations yields exactly `count` annotations inside the bytes |
| Annotations.EncodeParseConst | classport-commons/src/main/java/io/github/project/classport/commons/AnnotationConstantPool.java:270-274 | a written constant element value ('s', 'Z' and the other one-index tags) reads back as itself |
| Annotations.EncodeParseEnum | classport-commons/src/main/java/io/github/project/classport/commons/AnnotationConstantPool.java:230-274 | a written enum element value reads back as itself |
| Annotations.EncodeParseValue | classport-commons/src/main/java/io/github/project/classport/commons/AnnotationConstantPool.java:230-274 | every valid element value written anywhere reads back as itself, ending right after its bytes |
| Annotations.EncodeParseNested | classport-commons/src/main/java/io/github/project/classport/commons/AnnotationConstantPool.java:230-268 | a written nested-annotation value reads back as itself |
| Annotations.EncodeParseArray | classport-commons/src/main/java/io/github/project/classport/commons/AnnotationConstantPool.java:253-259 | a written array value ('[', num_values, the values) reads back as itself |
| Annotations.EncodeParseValues | classport-commons/src/main/java/io/github/project/classport/commons/AnnotationConstantPool.java:256-259 | written array values read back as themselves |
| Annotations.EncodeParsePair | classport-commons/src/main/java/io/github/project/classport/commons/AnnotationConstantPool.java:270-274 | a written element pair reads back: its name index, then its value |
| Annotations.EncodeParsePairs | classport-commons/src/main/java/io/github/project/classport/commons/AnnotationConstantPool.java:237-267 | written element pairs read back as themselves |
| Annotations.EncodeParseAnnotation | classport-commons/src/main/java/io/github/project/classport/commons/AnnotationConstantPool.java:230-268 | every valid annotation writeAnnotation-style bytes encode reads back as itself |
| Annotations.EncodeParseAnnotations | classport-commons/src/main/java/io/github/project/classport/commons/AnnotationConstantPool.java:207-213 | a run of valid written annotations reads back as itself |
| Annotations.FirstAnnotationReadsBack | classport-commons/src/main/java/io/github/project/classport/commons/AnnotationConstantPool.java:207-213 | the first of written annotations reads back and the rest are written where it stops |
| Annotations.ValidAnnotationsTail | classport-commons/src/main/java/io/github/project/classport/commons/AnnotationConstantPool.java:207-213 | the first of valid annotations and the rest are valid |
| Annotations.ParseAnnotationsCons | classport-commons/src/main/java/io/github/project/classport/commons/AnnotationConstantPool.java:202-210 | reading annotations is reading the first, then the rest |
| Annotations.BodyRoundTrip | classport-commons/src/main/java/io/github/project/classport/commons/AnnotationConstantPool.java:197-228 | every RuntimeVisibleAnnotations body of valid annotations reads back as those annotations |
| Annotations.ParseEncodeValue | classport-commons/src/main/java/io/github/project/classport/commons/AnnotationConstantPool.java:230-274 | an element value the reader accepts is valid and its encoding is exactly the bytes read |
| Annotations.ParseEncodeConst | classport-commons/src/main/java/io/github/project/classport/commons/AnnotationConstantPool.java:270-274 | the same for a constant value |
| Annotations.ParseEncodeEnum | classport-commons/src/main/java/io/github/project/classport/commons/AnnotationConstantPool.java:230-274 | the same for an enum value |
| Annotations.ParseEncodeNested | classport-commons/src/main/java/io/github/project/classport/commons/AnnotationConstantPool.java:230-268 | the same for a nested annotation value |
| Annotations.ParseEncodeArray | classport-commons/src/main/java/io/github/project/classport/commons/AnnotationConstantPool.java:253-259 | the same for an array value |
| Annotations.ParseEncodeValues | classport-commons/src/main/java/io/github/project/classport/commons/AnnotationConstantPool.java:256-259 | array values the reader accepts are valid and encode to the bytes read |
| Annotations.ParseEncodePairs | classport-commons/src/main/java/io/github/project/classport/commons/AnnotationConstantPool.java:237-267 | element pairs the reader accepts are valid and encode to the bytes read |
| Annotations.ParseEncodeAnnotation | classport-commons/src/main/java/io/github/project/classport/commons/AnnotationConstantPool.java:230-268 | an annotation the reader accepts is valid and encodes to the bytes read |
| Annotations.ParseEncodeAnnotations | classport-commons/src/main/java/io/github/project/classport/commons/AnnotationConstantPool.java:207-210 | annotations the reader accepts are valid and encode to the bytes read |
| Annotations.ValidAnnotationsCons | classport-commons/src/main/java/io/github/project/classport/commons/AnnotationConstantPool.java:207-213 | a valid annotation in front of valid annotations gives valid annotations |
| Annotations.ParseBodyEncodes | classport-commons/src/main/java/io/github/project/classport/commons/AnnotationConstantPool.java:197-216 | a body the reader accepts is the encoding of what it read, count included |
| Annotations.EncodeValuesSnoc | classport-commons/src/main/java/io/github/project/classport/commons/AnnotationConstantPool.java:256-259 | writing one more array value appends its bytes |
| Annotations.EncodePairsSnoc | classport-commons/src/main/java/io/github/project/classport/commons/AnnotationConstantPool.java:237-267 | writing one more pair appends its bytes |
| Annotations.EncodeAnnotationsSnoc | classport-commons/src/main/java/io/github/project/classport/commons/AnnotationConstantPool.java:207-213 | writing one more annotation appends its bytes |
| Annotations.AppendToBody | classport-commons/src/main/java/io/github/project/classport/commons/AnnotationConstantPool.java:197-216 | raising the count by one, keeping the old annotations' bytes and appending one annotation yields a body that reads back as the old annotations followed by the new one |
| AnnotationEntries.Utf8s | classport-commons/src/main/java/io/github/project/classport/commons/AnnotationConstantPool.java:55-58 | one Utf8 entry per child id, in order, holding that id |
| AnnotationEntries.TextsFitExtend | classport-commons/src/main/java/io/github/project/classport/commons/AnnotationConstantPool.java:55-58 | the child ids fit one more at a time |
| AnnotationEntries.Utf8sSnoc | classport-commons/src/main/java/io/github/project/classport/commons/AnnotationConstantPool.java:55-58 | one more child id, one more entry at the end |
| AnnotationEntries.NewEntries | classport-commons/src/main/java/io/github/project/classport/commons/AnnotationConstantPool.java:18-75 | getNewEntries writes 14 entries plus one per child id |
| AnnotationEntries.NewEntryAt | classport-commons/src/main/java/io/github/project/classport/commons/AnnotationConstantPool.java:18-75 | entry j is a head entry, the (j-10)-th child id, or a tail entry, by position |
| AnnotationEntries.Lowered | classport-commons/src/main/java/io/github/project/classport/commons/AnnotationConstantPool.java:77-80 | each entry is written with its text as modified UTF-8 |
| AnnotationEntries.AllFitConcat | classport-commons/src/main/java/io/github/project/classport/commons/AnnotationConstantPool.java:18-75 | two lists of entries fit together exactly when each fits |
| AnnotationEntries.AsciiLiteralFits | classport-commons/src/main/java/io/github/project/classport/commons/AnnotationConstantPool.java:77-80 | a plain ASCII literal takes one byte per character in writeUTF |
| AnnotationEntries.DescriptorIsAscii | classport-commons/src/main/java/io/github/project/classport/commons/AnnotationConstantPool.java:24 | the ClassportInfo descriptor is plain ASCII |
| AnnotationEntries.ShortKeysAreAscii | classport-commons/src/main/java/io/github/project/classport/commons/AnnotationConstantPool.java:28-64 | the element names group, version, id, childIds and artefact are plain ASCII |
| AnnotationEntries.LongKeysAreAscii | classport-commons/src/main/java/io/github/project/classport/commons/AnnotationConstantPool.java:46-70 | sourceProjectId, isDirectDependency and RuntimeVisibleAnnotations are plain ASCII |
| AnnotationEntries.KeysFit | classport-commons/src/main/java/io/github/project/classport/commons/AnnotationConstantPool.java:24-70 | the literal entries take 51, 5, 7, 2, 15, 8, 8, 18 and 25 bytes, all inside writeUTF's limit |
| AnnotationEntries.HeadEntriesFit | classport-commons/src/main/java/io/github/project/classport/commons/AnnotationConstantPool.java:24-53 | the head entries fit exactly when group, version, id and sourceProjectId do |
| AnnotationEntries.TailEntriesFit | classport-commons/src/main/java/io/github/project/classport/commons/AnnotationConstantPool.java:61-70 | the tail entries fit exactly when artefact does |
| AnnotationEntries.ChildEntriesFit | classport-commons/src/main/java/io/github/project/classport/commons/AnnotationConstantPool.java:55-58 | the child entries fit exactly when every child id does |
| AnnotationEntries.NewEntriesEncodable | classport-commons/src/main/java/io/github/project/classport/commons/AnnotationConstantPool.java:18-75 | getNewEntries can write every entry exactly when every text of the record fits writeUTF's 65535-byte limit |
| AnnotationEntries.EncodeEntriesSnoc | classport-commons/src/main/java/io/github/project/classport/commons/AnnotationConstantPool.java:77-85 | writing one more entry appends its bytes |
| AnnotationEntries.WriteUtf8Entry | classport-commons/src/main/java/io/github/project/classport/commons/AnnotationConstantPool.java:77-80 | writeUtf8Entry appends tag 1 and the text's modified UTF-8, and throws exactly when it is too long |
| AnnotationEntries.WriteIntegerEntry | classport-commons/src/main/java/io/github/project/classport/commons/AnnotationConstantPool.java:82-85 | writeIntegerEntry appends tag 3 and the value's four bytes |
| AnnotationEntries.IndicesMatchEntries | classport-commons/src/main/java/io/github/project/classport/commons/AnnotationConstantPool.java:436-485 | with consecutive indices from the old pool count, each index of CPIndices points at the new entry holding that element's name or value (the descriptor, "group", the group, ..., the Integer flag) |
| AnnotationEntries.HeadIndicesMatch | classport-commons/src/main/java/io/github/project/classport/commons/AnnotationConstantPool.java:436-467 | the type index and the first element indices point at their entries |
| AnnotationEntries.HeadSlots | classport-commons/src/main/java/io/github/project/classport/commons/AnnotationConstantPool.java:436-467 | the indices before the children are base, base+1, ..., base+9 |
| AnnotationEntries.ChildIndicesMatch | classport-commons/src/main/java/io/github/project/classport/commons/AnnotationConstantPool.java:468-471 | the k-th child index points at the k-th child id's entry |
| AnnotationEntries.TailIndicesMatch | classport-commons/src/main/java/io/github/project/classport/commons/AnnotationConstantPool.java:472-478 | the artefact and isDirectDependency indices point at their entries |
| AnnotationEntries.TailSlots | classport-commons/src/main/java/io/github/project/classport/commons/AnnotationConstantPool.java:472-478 | those indices follow the children |
| InjectedAnnotation.Indices | classport-commons/src/main/java/io/github/project/classport/commons/AnnotationConstantPool.java:436-485 | the indices count up consecutively from the old pool count |
| InjectedAnnotation.AppendedNameFollowsEntries | classport-commons/src/main/java/io/github/project/classport/commons/AnnotationConstantPool.java:111-123 | without an existing name the attribute name index is the slot right after the new entries, where the name is appended |
| InjectedAnnotation.ChildIdValues | classport-commons/src/main/java/io/github/project/classport/commons/AnnotationConstantPool.java:256-259 | the childIds array holds one String constant per child index, in order |
| InjectedAnnotation.ClassportAnnotation | classport-commons/src/main/java/io/github/project/classport/commons/AnnotationConstantPool.java:230-268 | the annotation writeAnnotation writes has seven elements |
| InjectedAnnotation.ChildIdValuesSize | classport-commons/src/main/java/io/github/project/classport/commons/AnnotationConstantPool.java:256-259 | each child takes three bytes |
| InjectedAnnotation.EncodePairsFrom | classport-commons/src/main/java/io/github/project/classport/commons/AnnotationConstantPool.java:237-267 | the pairs from i on are pair i, then the rest |
| InjectedAnnotation.ClassportAnnotationSize | classport-commons/src/main/java/io/github/project/classport/commons/AnnotationConstantPool.java:230-268 | the written annotation takes 39 bytes plus three per child |
| InjectedAnnotation.ChildIdValuesValid | classport-commons/src/main/java/io/github/project/classport/commons/AnnotationConstantPool.java:256-259 | child indices that fit a u2 make valid values |
| InjectedAnnotation.ClassportAnnotationValid | classport-commons/src/main/java/io/github/project/classport/commons/AnnotationConstantPool.java:230-268 | with indices that fit, the annotation is one the format represents, so it reads back |
| InjectedAnnotation.ConsecutiveIndicesFit | classport-commons/src/main/java/io/github/project/classport/commons/AnnotationConstantPool.java:436-485 | consecutive indices from a pool count that leaves room for the new entries fit a u2 |
| InjectedAnnotation.ClassportAnnotationDescribesRecord | classport-commons/src/main/java/io/github/project/classport/commons/AnnotationConstantPool.java:18-75 | read through the new pool entries, the annotation is the ClassportInfo descriptor with each element named as in the record and valued with the record's field |
| InjectedAnnotation.ClassportAnnotationNames | classport-commons/src/main/java/io/github/project/classport/commons/AnnotationConstantPool.java:237-267 | its type and element names resolve to the descriptor and the seven names |
| InjectedAnnotation.HeadNames | classport-commons/src/main/java/io/github/project/classport/commons/AnnotationConstantPool.java:237-256 | the type and the names before artefact |
| InjectedAnnotation.TailNames | classport-commons/src/main/java/io/github/project/classport/commons/AnnotationConstantPool.java:262-267 | the names of artefact and isDirectDependency |
| InjectedAnnotation.ClassportAnnotationValues | classport-commons/src/main/java/io/github/project/classport/commons/AnnotationConstantPool.java:237-267 | its values resolve to the record's fields, child ids in order and the flag as Integer 1 or 0 |
| InjectedAnnotation.HeadValues | classport-commons/src/main/java/io/github/project/classport/commons/AnnotationConstantPool.java:239-250 | group, version, id and sourceProjectId |
| InjectedAnnotation.ChildValues | classport-commons/src/main/java/io/github/project/classport/commons/AnnotationConstantPool.java:253-259 | the child ids |
| InjectedAnnotation.TailValues | classport-commons/src/main/java/io/github/project/classport/commons/AnnotationConstantPool.java:262-267 | artefact and isDirectDependency |
| InjectedAnnotation.MergedBodyAppends | classport-commons/src/main/java/io/github/project/classport/commons/AnnotationConstantPool.java:197-216 | mergeAnnotation writes the count plus one, the old annotations' bytes and the new annotation, so that a readable body reads back as the old annotations followed by the new one |
| InjectedAnnotation.CreatedBodyHoldsOne | classport-commons/src/main/java/io/github/project/classport/commons/AnnotationConstantPool.java:218-228 | createRuntimeVisibleAnnotations is the body holding just the new annotation, and reads back as such |
| InjectedAnnotation.MergeInto | classport-commons/src/main/java/io/github/project/classport/commons/AnnotationConstantPool.java:148-166 | merging keeps the number of attributes |
| InjectedAnnotation.MergeIntoFails | classport-commons/src/main/java/io/github/project/classport/commons/AnnotationConstantPool.java:202 | merging fails exactly when the target's body is too short for its count |
| InjectedAnnotation.MergedTableReadsBack | classport-commons/src/main/java/io/github/project/classport/commons/AnnotationConstantPool.java:144-166 | the merged table reads back with the same attributes, the target's body holding its old annotations followed by the new one |
| InjectedAnnotation.CreatedTableReadsBack | classport-commons/src/main/java/io/github/project/classport/commons/AnnotationConstantPool.java:167-186 | the extended table reads back as the old attributes followed by a new one, named by the attribute name index, holding just the new annotation |
| Injector.Int32 | classport-commons/src/main/java/io/github/project/classport/commons/AnnotationConstantPool.java:90 | Java int arithmetic: the result is a 32-bit two's-complement value congruent to the exact one |
| Injector.ReadPool | classport-commons/src/main/java/io/github/project/classport/commons/AnnotationConstantPool.java:93-108 | the header and pool reads end inside the class bytes, after the ten header bytes |
| Injector.InjectSpec | classport-commons/src/main/java/io/github/project/classport/commons/AnnotationConstantPool.java:87-192 | `injectAnnotation` succeeds exactly when its buffer size fits a Java int and the pool, the class body and the attribute table can all be read, and its output keeps the original magic and version bytes |
| Injector.ClassBodyEnd | classport-commons/src/main/java/io/github/project/classport/commons/AnnotationConstantPool.java:125-136 | the class info, interfaces, fields and methods end inside the class bytes |
| Injector.AttributeSectionIsNewTable | classport-commons/src/main/java/io/github/project/classport/commons/AnnotationConstantPool.java:141-186 | the rewritten class attribute table is the count (plus one on the append path) followed by the table as read, merged or extended |
| Injector.SectionAfterSearch | classport-commons/src/main/java/io/github/project/classport/commons/AnnotationConstantPool.java:142-144 | a failing attribute search fails the injection; otherwise its answer picks the merge or the append path |
| Injector.OutputSections | classport-commons/src/main/java/io/github/project/classport/commons/AnnotationConstantPool.java:93-186 | the output is the header, the new pool count, the old pool, the new entries, the name when missing, the class body and the new table, in a row |
| Injector.SevenParts | classport-commons/src/main/java/io/github/project/classport/commons/AnnotationConstantPool.java:93-186 | where each of the output's seven parts sits |
| Injector.InjectedLayout | classport-commons/src/main/java/io/github/project/classport/commons/AnnotationConstantPool.java:87-192 | a successful injection output starts with the original header, the new pool count and the old pool entries unchanged, then the new entries and the name when missing, then the class body as it was, then the rewritten attribute table |
| Injector.InjectSpecParts | classport-commons/src/main/java/io/github/project/classport/commons/AnnotationConstantPool.java:87-192 | a successful output is the pool section, the unchanged class body and the attribute section |
| Injector.RvaNameEntryIsUtf8 | classport-commons/src/main/java/io/github/project/classport/commons/AnnotationConstantPool.java:122 | the appended name is a 28-byte Utf8 entry holding the exact name the attribute search compares with |
| Injector.PrependTwice | classport-commons/src/main/java/io/github/project/classport/commons/AnnotationConstantPool.java:148-166 | prepending two read results is prepending their concatenation |
| Injector.MergeIntoSnoc | classport-commons/src/main/java/io/github/project/classport/commons/AnnotationConstantPool.java:154-165 | merging into attributes read so far: the attributes before the target are unchanged, the target's body is merged, a failure stays a failure |
| Injector.ParseAttributesStep | classport-commons/src/main/java/io/github/project/classport/commons/AnnotationConstantPool.java:148-152 | reading a table is reading its first attribute, then the rest |
| Injector.MergeIntoPrefixNone | classport-commons/src/main/java/io/github/project/classport/commons/AnnotationConstantPool.java:157 | a merge that fails on the attributes read so far fails on the whole table |
| Injector.EncodeAttributesSnoc | classport-commons/src/main/java/io/github/project/classport/commons/AnnotationConstantPool.java:162-164 | writing one more attribute appends its bytes |
| Injector.TargetWritten | classport-commons/src/main/java/io/github/project/classport/commons/AnnotationConstantPool.java:154-159 | after writing the target, the output is the merged attributes so far, and it fails exactly when merging does |
| Injector.OtherWritten | classport-commons/src/main/java/io/github/project/classport/commons/AnnotationConstantPool.java:160-164 | after copying another attribute, the output is the merged attributes so far |
| Injector.PrependNothing | classport-commons/src/main/java/io/github/project/classport/commons/AnnotationConstantPool.java:148 | prepending nothing changes nothing |
| Injector.MergeLoopEntry | classport-commons/src/main/java/io/github/project/classport/commons/AnnotationConstantPool.java:146-148 | the merging loop's invariant holds before the first attribute |
| Injector.MergeLoopExit | classport-commons/src/main/java/io/github/project/classport/commons/AnnotationConstantPool.java:148-166 | when the merging loop has read every attribute, the output is the table as read with the target merged |
| Injector.AppendedTable | classport-commons/src/main/java/io/github/project/classport/commons/AnnotationConstantPool.java:169-185 | the append path writes the count plus one, the table as read and the new attribute |
| Injector.ReadAttribute | classport-commons/src/main/java/io/github/project/classport/commons/AnnotationConstantPool.java:149-152 | reading an attribute succeeds exactly when its header and data fit, and moves past it |
| Injector.AnnotationConstantPool.constructor | classport-commons/src/main/java/io/github/project/classport/commons/AnnotationConstantPool.java:12-14 | the injector keeps the record it injects |
| Injector.AnnotationConstantPool.WriteNext | classport-commons/src/main/java/io/github/project/classport/commons/AnnotationConstantPool.java:77-80 | one more Utf8 entry is written, and the write fails exactly when the text is too long |
| Injector.AnnotationConstantPool.WriteName | classport-commons/src/main/java/io/github/project/classport/commons/AnnotationConstantPool.java:28-70 | an element name entry always fits |
| Injector.AnnotationConstantPool.WritePair | classport-commons/src/main/java/io/github/project/classport/commons/AnnotationConstantPool.java:28-49 | a name entry, then a value entry that fails exactly when the value is too long |
| Injector.AnnotationConstantPool.WriteHeadEntries | classport-commons/src/main/java/io/github/project/classport/commons/AnnotationConstantPool.java:24-53 | the head entries are written, and the writes fail exactly when group, version, id or sourceProjectId is too long |
| Injector.AnnotationConstantPool.HeadEntriesParts | classport-commons/src/main/java/io/github/project/classport/commons/AnnotationConstantPool.java:24-53 | the head entries are the descriptor, the four string elements and the childIds name |
| Injector.AnnotationConstantPool.WriteStringElementEntries | classport-commons/src/main/java/io/github/project/classport/commons/AnnotationConstantPool.java:28-49 | the four string elements' entries, name then value |
| Injector.AnnotationConstantPool.WriteTwoElements | classport-commons/src/main/java/io/github/project/classport/commons/AnnotationConstantPool.java:28-49 | two string elements' entries |
| Injector.AnnotationConstantPool.WriteTailEntries | classport-commons/src/main/java/io/github/project/classport/commons/AnnotationConstantPool.java:61-70 | the artefact entries and the isDirectDependency name and Integer flag, failing exactly when artefact is too long |
| Injector.AnnotationConstantPool.GetNewEntries | classport-commons/src/main/java/io/github/project/classport/commons/AnnotationConstantPool.java:18-75 | getNewEntries returns the encoding of the 14 + children new entries and their count, and fails exactly when a text of the record is too long |
| Injector.AnnotationConstantPool.WriteChildIdEntries | classport-commons/src/main/java/io/github/project/classport/commons/AnnotationConstantPool.java:55-58 | the loop writes one Utf8 entry per child id, failing exactly when one is too long |
| Injector.AnnotationConstantPool.WriteChildIdEntry | classport-commons/src/main/java/io/github/project/classport/commons/AnnotationConstantPool.java:56-57 | one pass writes the entry of child i |
| Injector.AnnotationConstantPool.NewCPIndices | classport-commons/src/main/java/io/github/project/classport/commons/AnnotationConstantPool.java:436-485 | the CPIndices constructor assigns the consecutive indices `Indices` describes, the attribute name the existing one or the slot after the new entries |
| Injector.AnnotationConstantPool.WriteStringElementValue | classport-commons/src/main/java/io/github/project/classport/commons/AnnotationConstantPool.java:270-274 | writes a String-constant element pair |
| Injector.AnnotationConstantPool.WriteChildIds | classport-commons/src/main/java/io/github/project/classport/commons/AnnotationConstantPool.java:253-259 | writes the childIds element: name, '[', the number of values and one String constant per child |
| Injector.AnnotationConstantPool.WriteChildIdValues | classport-commons/src/main/java/io/github/project/classport/commons/AnnotationConstantPool.java:256-259 | the loop writes the child values in order |
| Injector.AnnotationConstantPool.WriteAnnotation | classport-commons/src/main/java/io/github/project/classport/commons/AnnotationConstantPool.java:230-268 | writeAnnotation writes the encoding of the seven-element annotation over the indices |
| Injector.AnnotationConstantPool.WriteLastElements | classport-commons/src/main/java/io/github/project/classport/commons/AnnotationConstantPool.java:261-267 | writes the artefact and isDirectDependency elements |
| Injector.AnnotationConstantPool.PairsOfSeven | classport-commons/src/main/java/io/github/project/classport/commons/AnnotationConstantPool.java:237-267 | seven pairs are the first four and then each of the other three |
| Injector.AnnotationConstantPool.WriteStringElements | classport-commons/src/main/java/io/github/project/classport/commons/AnnotationConstantPool.java:239-250 | writes the group, version, id and sourceProjectId elements |
| Injector.AnnotationConstantPool.PairsPrefix | classport-commons/src/main/java/io/github/project/classport/commons/AnnotationConstantPool.java:237-267 | the pairs up to k + 1 are the pairs up to k and pair k |
| Injector.AnnotationConstantPool.MergeAnnotation | classport-commons/src/main/java/io/github/project/classport/commons/AnnotationConstantPool.java:197-216 | mergeAnnotation returns the merged body (count plus one, old annotations, new annotation), and fails exactly when the body is too short for its count |
| Injector.AnnotationConstantPool.CreateRuntimeVisibleAnnotations | classport-commons/src/main/java/io/github/project/classport/commons/AnnotationConstantPool.java:218-228 | returns the body holding just the new annotation |
| Injector.AnnotationConstantPool.MergeStep | classport-commons/src/main/java/io/github/project/classport/commons/AnnotationConstantPool.java:148-166 | one pass of the merging loop keeps the invariant that the output is the attributes read so far with the target merged, or fails as the table does |
| Injector.AnnotationConstantPool.WriteAttribute | classport-commons/src/main/java/io/github/project/classport/commons/AnnotationConstantPool.java:154-165 | writes the attribute merged when it is the target, as read otherwise |
| Injector.AnnotationConstantPool.WriteMerged | classport-commons/src/main/java/io/github/project/classport/commons/AnnotationConstantPool.java:156-159 | writes the target's name, the merged body's length and the merged body |
| Injector.AnnotationConstantPool.WriteCopied | classport-commons/src/main/java/io/github/project/classport/commons/AnnotationConstantPool.java:162-164 | writes another attribute as read |
| Injector.AnnotationConstantPool.InjectClassAttributes | classport-commons/src/main/java/io/github/project/classport/commons/AnnotationConstantPool.java:141-186 | the class attribute table is rewritten as `AttributeSection` says, and the writes fail exactly when it does |
| Injector.AnnotationConstantPool.RewriteAttributes | classport-commons/src/main/java/io/github/project/classport/commons/AnnotationConstantPool.java:144-186 | the merge path when the search found an attribute, the append path otherwise |
| Injector.AnnotationConstantPool.MergeAttributes | classport-commons/src/main/java/io/github/project/classport/commons/AnnotationConstantPool.java:146-166 | the merge path writes the same count and the table with the target merged |
| Injector.AnnotationConstantPool.AppendAttribute | classport-commons/src/main/java/io/github/project/classport/commons/AnnotationConstantPool.java:169-185 | the append path writes the count plus one, the table as read and a new attribute holding just the new annotation |
| Injector.AnnotationConstantPool.CopyAttributeTable | classport-commons/src/main/java/io/github/project/classport/commons/AnnotationConstantPool.java:172-179 | the copy loop writes the attributes as read, failing exactly when they do not parse |
| Injector.AnnotationConstantPool.InjectAnnotation | classport-commons/src/main/java/io/github/project/classport/commons/AnnotationConstantPool.java:87-192 | injectAnnotation returns what `InjectSpec` gives, and throws exactly when it fails; `Injector.InjectedLayout` says what that output is |
| Injector.AnnotationConstantPool.InjectIntoBuffer | classport-commons/src/main/java/io/github/project/classport/commons/AnnotationConstantPool.java:92-192 | the writes once the output buffer exists |
| Injector.AnnotationConstantPool.InjectAfterPoolSection | classport-commons/src/main/java/io/github/project/classport/commons/AnnotationConstantPool.java:125-186 | the class body copied, then the attribute table rewritten |
| Injector.AnnotationConstantPool.CopyVersionHeader | classport-commons/src/main/java/io/github/project/classport/commons/AnnotationConstantPool.java:93-95 | the magic number and versions are copied, failing exactly when the class has fewer than eight bytes |
| Injector.AnnotationConstantPool.CopyU2 | classport-commons/src/main/java/io/github/project/classport/commons/AnnotationConstantPool.java:125-127 | a u2 is copied as read, failing exactly when it does not fit |
| Injector.AnnotationConstantPool.WritePoolSection | classport-commons/src/main/java/io/github/project/classport/commons/AnnotationConstantPool.java:98-123 | writes the new count, the old pool, the new entries and the name when missing, and fails exactly when reading the pool does |
| Injector.AnnotationConstantPool.ReadPoolInfo | classport-commons/src/main/java/io/github/project/classport/commons/AnnotationConstantPool.java:98-109 | reads the pool as `ReadPool` says |
| Injector.AnnotationConstantPool.WriteNewPool | classport-commons/src/main/java/io/github/project/classport/commons/AnnotationConstantPool.java:111-123 | writes the new pool count, the old entries, the new entries and the name when missing |
| Injector.AnnotationConstantPool.WriteRvaName | classport-commons/src/main/java/io/github/project/classport/commons/AnnotationConstantPool.java:122 | writes the Utf8 entry "RuntimeVisibleAnnotations" |
| Injector.AnnotationConstantPool.CopyClassBody | classport-commons/src/main/java/io/github/project/classport/commons/AnnotationConstantPool.java:125-136 | copies the class info, interfaces, fields and methods as read, failing exactly when they do not fit |
| Injector.AnnotationConstantPool.CopyClassInfo | classport-commons/src/main/java/io/github/project/classport/commons/AnnotationConstantPool.java:125-133 | copies access flags, this and super class and the interfaces as read |

## Left out

- Reading and writing files, jars and zip archives is not modelled: `JarHelper.extractTo`, the temporary directories, the file writes of `embedDirectory` and the copying of POM files. The entries of a jar and their contents are parameters.
- Manifests are parsed and written by the JDK; the model takes their attributes as parameters.
- The `execute` methods of the embedding goals and `buildProjectForArtefact` call into Maven's resolver and are not modelled beyond the per-artefact steps they call. The same goes for the `Artifact` and `Dependency` getters and `DependencyCollectorBuilder`: coordinates are plain string records.
- TldPluginMojo.Embedder.EmbedMetadata: the artifact map that `Collectors.toMap(Artifact::getId, ...)` builds is a parameter, so the `IllegalStateException` that toMap throws on duplicate ids is not modelled.
- ASM's `ClassReader` and `ClassWriter` are not modelled; the visitor adders are modelled as the events they forward and insert. `AnnotationReader` is a parameter of the agents.
- The order in which reflection lists the annotation's methods is undefined; the plugin adder takes it as an input sequence.
- Object identity in `ClassportProject` (the `==` at line 37 of the `io.github.project` variant) is modelled as string equality.
- `HashMap` iteration order is undefined. The SBOM maps are modelled as an explicit key sequence, and the agent's `Shutdown` takes the order of its entry set as an input that must list each key once.
- ProjectCommons.ClassportProject.Memoise: the memo `nodes` is a `HashMap` whose `keySet()` order the model fixes to insertion order, so ProjectCommons.Put, ProjectCommons.FirstContaining and ProjectCommons.Resolve pick the first matching key in insertion order where Java picks the first in hash order.
- The `parallelStream` of `JarHelper.embed` is modelled as a sequential loop. The written jar is proved not to depend on the order in which entries are collected. When several entries fail, the model reports the first failure in walk order, where Java may report any of them. The same holds for the `parallel()` walk of `embedDirectory`, whose contract after a failure allows any mix of rewritten and untouched files.
- `String.compareTo` is modelled as lexicographic order on characters.
- The `io.github.chains_project` `ClassportProject` variants recurse without a visited set, starting from the direct dependencies. The model asks for a rank on the keys reachable from those dependencies, which exists exactly when no cycle is reachable. A reachable cycle makes Java throw `StackOverflowError`, and that case is not modelled. Cycles among unreachable keys are allowed.
- Bytes after the class attribute table are dropped, as the injector drops them; the model does not flag such input.
- Modified UTF-8 decoding is not modelled: Utf8 entries are compared as bytes, as the source compares them with ASCII names.
- Log messages are not modelled, only the text the SBOM and tree writers produce. The `IOException` that `writeSBOM` catches and reports is not modelled.
- The JVMTI callbacks of the native agent (`Agent_OnLoad`, `Agent_OnAttach`, `onMethodEntry`) are not modelled; the constant-pool bytes and the calling method they deliver are parameters.
- NativeAgent.ParseConstantPool: the C code reads past the end of a truncated buffer. The model requires the whole scan to fit the buffer instead of modelling that read.

## Findings

| source | as written | input that shows it | evidently intended | confidence | as-written member | corrected member |
|---|---|---|---|---|---|---|
| maven-plugin/src/main/java/tld/domain/me/classport/plugin/MetadataAdder.java:59 | compares the visited annotation descriptor with `annotationType().getName()`, a dotted class name that never equals a descriptor | a class that already carries the ClassportInfo annotation and has one method: it gets a second copy | compare with the descriptor `addAnnotation` writes at line 110, so the annotation is added once | not executed | PluginMetadataAdder.DuplicateAsWritten | PluginMetadataAdder.CorrectedAddsOnce |
