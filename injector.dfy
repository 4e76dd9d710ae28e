/** injectAnnotation: copy a class file, appending the annotation's entries
    to its constant pool and the annotation to its class-level
    RuntimeVisibleAnnotations attribute (JVMS 4.1, 4.4, 4.7.16). The
    specification InjectSpec says what the output is; the class
    AnnotationConstantPool carries the imperative code, proved against it. */
module Injector {
  import opened Wrappers
  import opened Bytes
  import opened Buffers
  import opened Records
  import opened Annotations
  import opened AnnotationEntries
  import opened InjectedAnnotation
  import opened ClassFile
  import CP = ConstantPool

  /** Java int arithmetic: x wrapped to 32 bits, two's complement. */
  function Int32(x: int): (r: int)
    ensures -0x8000_0000 <= r < 0x8000_0000
    ensures (r - x) % TWO_32 == 0
  {
    (x + 0x8000_0000) % TWO_32 - 0x8000_0000
  }

  // ---------------------------------------------------------------------
  // The specification

  /** What the injector learns from the original constant pool: the old
      constant_pool_count, where the pool ends, and the index of an existing
      "RuntimeVisibleAnnotations" Utf8 entry (-1 when there is none). */
  datatype PoolInfo = PoolInfo(count: nat, cpEnd: nat, rvaUtf8: int)

  /** The reads of injectAnnotation up to the end of the pool, in its
      order; None when one of them throws. The pool starts at byte 10. */
  function ReadPool(orig: seq<byte>): (r: Option<PoolInfo>)
    ensures r.Some? ==> 10 <= r.value.cpEnd <= |orig|
  {
    if |orig| < 10 then None
    else
      var count := U2At(orig, 8);
      var cpEnd :- CP.SkipPool(orig, 10, count - 1);
      var rvaUtf8 :- CP.FindUtf8From(orig[10..cpEnd], 0, 1, count - 1, RvaNameBytes());
      Some(PoolInfo(count, cpEnd, rvaUtf8))
  }

  /** The class info and interfaces, the fields and the methods after the
      pool at `pos`: where they end, when every read succeeds. */
  function ClassBodyEnd(orig: seq<byte>, pos: nat): (r: Option<nat>)
    ensures r.Some? ==> pos <= r.value <= |orig|
  {
    var classInfoEnd :- ClassInfoEnd(orig, pos);
    var fieldsEnd :- SkipMembers(orig, classInfoEnd);
    SkipMembers(orig, fieldsEnd)
  }

  /** The indices the new annotation refers to: the existing name's index
      when the pool has one (rvaExists is rvaUtf8Index > 0), else -1. */
  function PoolIndices(info: ClassportInfo, p: PoolInfo): CPIndices
  {
    Indices(p.count, |info.childIds|, if p.rvaUtf8 > 0 then p.rvaUtf8 else -1)
  }

  /** The new constant_pool_count: the old one, plus the new entries, plus
      one for an appended "RuntimeVisibleAnnotations" name when none existed. */
  function NewPoolCount(p: PoolInfo, cpd: ConstantPoolData): int
  {
    p.count + cpd.entryCount + (if p.rvaUtf8 > 0 then 0 else 1)
  }

  /** The Utf8 entry writeUtf8Entry(dos, "RuntimeVisibleAnnotations") writes. */
  function RvaNameEntry(): seq<byte>
  {
    EncodeEntry(Utf8(RVA_NAME))
  }

  /** The appended name entry, present only when the pool had none. */
  function AppendedName(p: PoolInfo): seq<byte>
  {
    if p.rvaUtf8 > 0 then [] else RvaNameEntry()
  }

  /** What injectAnnotation writes up to the end of the constant pool: the
      magic and versions, the new count (a u2), the old pool's bytes, the
      new entries and the appended name if needed. */
  function PoolSection(orig: seq<byte>, p: PoolInfo, cpd: ConstantPoolData): seq<byte>
    requires 10 <= p.cpEnd <= |orig|
  {
    orig[..8] + U2(NewPoolCount(p, cpd)) + orig[10..p.cpEnd] + cpd.data + AppendedName(p)
  }

  /** The class attribute table at `pos` as injectAnnotation rewrites it:
      the attribute search, then the merge path when it finds an
      annotations attribute, the append path otherwise. */
  function AttributeSection(b: seq<byte>, pos: nat, ix: CPIndices): Option<seq<byte>>
  {
    if pos + 2 > |b| then None
    else
      var count := U2At(b, pos);
      var rvaIndex :- FindRvaFrom(b, NameIs(b, RvaNameBytes()), pos + 2, count, 0);
      RewrittenTable(b, pos + 2, count, rvaIndex, ClassportAnnotation(ix), ix.rvaNameIndex)
  }

  /** The table of `count` attributes at `pos`, merged into attribute
      `rvaIndex` when there is one, extended otherwise. */
  function RewrittenTable(b: seq<byte>, pos: nat, count: nat, rvaIndex: int, a: Annotation, rvaNameIndex: int)
    : Option<seq<byte>>
  {
    if rvaIndex >= 0 then MergePath(b, pos, count, rvaIndex, a)
    else AppendPath(b, pos, count, a, rvaNameIndex)
  }

  /** The merge path: the same count, then every attribute read, the one
      at `rvaIndex` with its body merged. */
  function MergePath(b: seq<byte>, pos: nat, count: nat, rvaIndex: nat, a: Annotation): Option<seq<byte>>
  {
    var merged :- MergedAttributes(b, pos, count, rvaIndex, a);
    Some(U2(count) + EncodeAttributes(merged))
  }

  /** The append path: the count plus one, every attribute as read, then a
      new annotations attribute holding just the new annotation. */
  function AppendPath(b: seq<byte>, pos: nat, count: nat, a: Annotation, rvaNameIndex: int): Option<seq<byte>>
  {
    var parsed :- ParseAttributes(b, pos, count);
    Some(U2(count + 1) + EncodeAttributes(parsed.0 + [Attribute(rvaNameIndex, CreatedBody(a))]))
  }

  /** The merge path's attributes: the table as read, with the target's
      body merged. */
  function MergedAttributes(b: seq<byte>, pos: nat, count: nat, rvaIndex: nat, a: Annotation)
    : Option<seq<Attribute>>
  {
    var parsed :- ParseAttributes(b, pos, count);
    MergeInto(parsed.0, rvaIndex, a)
  }

  /** injectAnnotation(originalBytes, cpd): the pool section; the class
      info, fields and methods as read; then the rewritten attribute table.
      Bytes after the table are not copied. None when any read throws, and
      when the output buffer's initial capacity |original| + 2·|cpd.data|
      is negative as a Java int. */
  function InjectSpec(info: ClassportInfo, orig: seq<byte>, cpd: ConstantPoolData): (r: Option<seq<byte>>)
    ensures r.Some? <==>
              && CapacityOk(|orig|, |cpd.data|)
              && ReadPool(orig).Some?
              && ClassBodyEnd(orig, ReadPool(orig).value.cpEnd).Some?
              && AttributeSection(orig, ClassBodyEnd(orig, ReadPool(orig).value.cpEnd).value,
                                  PoolIndices(info, ReadPool(orig).value)).Some?
    ensures r.Some? ==> |r.value| >= 10 && r.value[..8] == orig[..8]
  {
    if !CapacityOk(|orig|, |cpd.data|) then None
    else
      InjectWithCapacity(info, orig, cpd)
  }

  /** `new ByteArrayOutputStream(originalLength + dataLength * 2)` accepts its
      initial size, computed in Java int arithmetic: it is not negative. */
  predicate CapacityOk(originalLength: nat, dataLength: nat)
  {
    Int32(originalLength + Int32(dataLength * 2)) >= 0
  }

  /** injectAnnotation once its output buffer exists: the header and the
      pool, then the rest. */
  function InjectWithCapacity(info: ClassportInfo, orig: seq<byte>, cpd: ConstantPoolData): Option<seq<byte>>
  {
    var p :- ReadPool(orig);
    InjectAfterPool(info, orig, p, cpd)
  }

  /** The rest of injectAnnotation once the pool is read: the sections
      after it, appended to the pool section. */
  function InjectAfterPool(info: ClassportInfo, orig: seq<byte>, p: PoolInfo, cpd: ConstantPoolData): Option<seq<byte>>
    requires 10 <= p.cpEnd <= |orig|
  {
    var bodyEnd :- ClassBodyEnd(orig, p.cpEnd);
    var table :- AttributeSection(orig, bodyEnd, PoolIndices(info, p));
    Some(PoolSection(orig, p, cpd) + orig[p.cpEnd..bodyEnd] + table)
  }

  // ---------------------------------------------------------------------
  // Properties of the output

  /** The attribute section is the table read, rewritten as NewAttributeTable
      says: merged when the search finds an annotations attribute, extended
      by one otherwise. */
  lemma AttributeSectionIsNewTable(b: seq<byte>, pos: nat, ix: CPIndices)
    requires pos + 2 <= |b|
    ensures var count := U2At(b, pos);
      AttributeSection(b, pos, ix)
      == (var rvaIndex :- FindRvaFrom(b, NameIs(b, RvaNameBytes()), pos + 2, count, 0);
          var parsed :- ParseAttributes(b, pos + 2, count);
          NewAttributeTable(parsed.0, rvaIndex, ClassportAnnotation(ix), ix.rvaNameIndex))
  {
  }

  /** What the attribute search answers decides the rewritten table. */
  lemma SectionAfterSearch(b: seq<byte>, pos: nat, ix: CPIndices, found: Result<int>)
    requires pos + 2 <= |b|
    requires Agrees(found, FindRvaFrom(b, NameIs(b, RvaNameBytes()), pos + 2, U2At(b, pos), 0))
    ensures found.Err? ==> AttributeSection(b, pos, ix).None?
    ensures found.Ok? ==> AttributeSection(b, pos, ix)
                          == RewrittenTable(b, pos + 2, U2At(b, pos), found.value, ClassportAnnotation(ix), ix.rvaNameIndex)
  {
  }

  /** The layout of an output: the first eight bytes as read, the new
      count, the old pool at its old offset, the new entries right after it,
      then the appended name (when one is needed), then the class info,
      fields and methods unchanged, then the rewritten attribute table. */
  predicate LaidOut(out: seq<byte>, orig: seq<byte>, p: PoolInfo, cpd: ConstantPoolData, bodyEnd: nat, table: seq<byte>)
    requires 10 <= p.cpEnd <= bodyEnd <= |orig|
  {
    var d := |cpd.data| + |AppendedName(p)|;
    && |out| == bodyEnd + d + |table|
    && out[..8] == orig[..8]
    && U2At(out, 8) == NewPoolCount(p, cpd) % TWO_16
    && out[10..p.cpEnd] == orig[10..p.cpEnd]
    && out[p.cpEnd..p.cpEnd + |cpd.data|] == cpd.data
    && out[p.cpEnd + |cpd.data|..p.cpEnd + d] == AppendedName(p)
    && out[p.cpEnd + d..bodyEnd + d] == orig[p.cpEnd..bodyEnd]
    && out[bodyEnd + d..] == table
  }

  /** The pool section, the class body and a table, in a row, are laid out so. */
  lemma OutputSections(orig: seq<byte>, p: PoolInfo, cpd: ConstantPoolData, bodyEnd: nat, table: seq<byte>)
    requires 10 <= p.cpEnd <= bodyEnd <= |orig|
    ensures LaidOut(PoolSection(orig, p, cpd) + orig[p.cpEnd..bodyEnd] + table, orig, p, cpd, bodyEnd, table)
  {
    var c := U2(NewPoolCount(p, cpd));
    var out := PoolSection(orig, p, cpd) + orig[p.cpEnd..bodyEnd] + table;
    SevenParts(orig[..8], c, orig[10..p.cpEnd], cpd.data, AppendedName(p), orig[p.cpEnd..bodyEnd], table);
    assert U2At(out, 8) == U2At(out[8..10], 0) == U2At(c, 0);
    U2RoundTrip(NewPoolCount(p, cpd) % TWO_16);
  }

  /** Where each of seven consecutive parts sits in their concatenation. */
  lemma SevenParts(a: seq<byte>, c: seq<byte>, pool: seq<byte>, data: seq<byte>, name: seq<byte>,
                   body: seq<byte>, table: seq<byte>)
    requires |a| == 8 && |c| == 2
    ensures var out := a + c + pool + data + name + body + table;
      var e := 10 + |pool|;
      var d := |data| + |name|;
      && |out| == e + |body| + d + |table|
      && out[..8] == a && out[8..10] == c && out[10..e] == pool
      && out[e..e + |data|] == data && out[e + |data|..e + d] == name
      && out[e + d..e + |body| + d] == body && out[e + |body| + d..] == table
  {
  }

  /** What injectAnnotation returns, when it returns: the reads all
      succeeded, and the output is the original with the new count, the new
      entries (and the name when missing) after the old pool, the class
      body shifted by them, and the rewritten attribute table last. */
  lemma InjectedLayout(info: ClassportInfo, orig: seq<byte>, cpd: ConstantPoolData)
    requires InjectSpec(info, orig, cpd).Some?
    ensures ReadPool(orig).Some? && ClassBodyEnd(orig, ReadPool(orig).value.cpEnd).Some?
    ensures var p := ReadPool(orig).value;
      var bodyEnd := ClassBodyEnd(orig, p.cpEnd).value;
      && AttributeSection(orig, bodyEnd, PoolIndices(info, p)).Some?
      && LaidOut(InjectSpec(info, orig, cpd).value, orig, p, cpd, bodyEnd, AttributeSection(orig, bodyEnd, PoolIndices(info, p)).value)
  {
    InjectSpecParts(info, orig, cpd);
    var p := ReadPool(orig).value;
    var bodyEnd := ClassBodyEnd(orig, p.cpEnd).value;
    OutputSections(orig, p, cpd, bodyEnd, AttributeSection(orig, bodyEnd, PoolIndices(info, p)).value);
  }

  /** An output is the pool section, the class body and the attribute section. */
  lemma InjectSpecParts(info: ClassportInfo, orig: seq<byte>, cpd: ConstantPoolData)
    requires InjectSpec(info, orig, cpd).Some?
    ensures ReadPool(orig).Some? && ClassBodyEnd(orig, ReadPool(orig).value.cpEnd).Some?
    ensures var p := ReadPool(orig).value;
      var bodyEnd := ClassBodyEnd(orig, p.cpEnd).value;
      var table := AttributeSection(orig, bodyEnd, PoolIndices(info, p));
      table.Some? && InjectSpec(info, orig, cpd).value == PoolSection(orig, p, cpd) + orig[p.cpEnd..bodyEnd] + table.value
  {
  }

  /** The appended entry is a Utf8 entry holding exactly the bytes the
      attribute search compares names with. */
  lemma RvaNameEntryIsUtf8()
    ensures RvaNameEntry() == CP.EncodePoolEntry(CP.Utf8Bytes(RvaNameBytes()))
    ensures |RvaNameEntry()| == 28
  {
    KeysFit();
    RvaNameBytesAreAscii();
    ModifiedUtf8OfAscii(RVA_NAME);
  }

  // ---------------------------------------------------------------------
  // The class attribute table

  /** One more parsed result in front. */
  function Prepend(done: seq<Attribute>, r: Option<(seq<Attribute>, nat)>): Option<(seq<Attribute>, nat)>
  {
    if r.None? then None else Some((done + r.value.0, r.value.1))
  }

  lemma PrependTwice(done: seq<Attribute>, x: Attribute, r: Option<(seq<Attribute>, nat)>)
    ensures Prepend(done, Prepend([x], r)) == Prepend(done + [x], r)
  {
    if r.Some? {
      assert done + ([x] + r.value.0) == done + [x] + r.value.0;
    }
  }

  /** Merging into the first attributes read: the ones before the target
      unchanged, the target replaced by its merged body. */
  lemma MergeIntoSnoc(done: seq<Attribute>, x: Attribute, rvaIndex: nat, a: Annotation)
    requires |done| <= rvaIndex ==> MergeInto(done, rvaIndex, a) == Some(done)
    ensures |done| < rvaIndex ==> MergeInto(done + [x], rvaIndex, a) == Some(done + [x])
    ensures |done| == rvaIndex ==>
              MergeInto(done + [x], rvaIndex, a)
              == (if MergedBody(x.info, a).None? then None
                  else Some(done + [Attribute(x.nameIndex, MergedBody(x.info, a).value)]))
    ensures |done| > rvaIndex && MergeInto(done, rvaIndex, a).Some? ==>
              MergeInto(done + [x], rvaIndex, a) == Some(MergeInto(done, rvaIndex, a).value + [x])
    ensures |done| > rvaIndex && MergeInto(done, rvaIndex, a).None? ==> MergeInto(done + [x], rvaIndex, a).None?
  {
    var ys := done + [x];
    if |done| == rvaIndex && MergedBody(x.info, a).Some? {
      assert ys[rvaIndex := Attribute(x.nameIndex, MergedBody(x.info, a).value)]
          == done + [Attribute(x.nameIndex, MergedBody(x.info, a).value)];
    }
    if |done| > rvaIndex && MergeInto(done, rvaIndex, a).Some? {
      var m := MergedBody(done[rvaIndex].info, a).value;
      assert ys[rvaIndex] == done[rvaIndex];
      assert ys[rvaIndex := Attribute(done[rvaIndex].nameIndex, m)]
          == done[rvaIndex := Attribute(done[rvaIndex].nameIndex, m)] + [x];
    }
  }

  /** The attribute at `pos`, as the loops read it. */
  function AttributeAt(b: seq<byte>, pos: nat): Attribute
    requires AttributeEnd(b, pos).Some?
  {
    Attribute(U2At(b, pos), b[pos + 6..AttributeEnd(b, pos).value])
  }

  /** Reading a table: its first attribute, then the rest. */
  lemma ParseAttributesStep(b: seq<byte>, pos: nat, n: nat)
    requires n > 0 && AttributeEnd(b, pos).Some?
    ensures ParseAttributes(b, pos, n)
            == Prepend([AttributeAt(b, pos)], ParseAttributes(b, AttributeEnd(b, pos).value, n - 1))
  {
  }

  /** A merge that fails on a prefix fails on the whole table. */
  lemma MergeIntoPrefixNone(ys: seq<Attribute>, zs: seq<Attribute>, rvaIndex: nat, a: Annotation)
    requires MergeInto(ys, rvaIndex, a).None?
    ensures MergeInto(ys + zs, rvaIndex, a).None?
  {
    assert (ys + zs)[rvaIndex] == ys[rvaIndex];
  }

  lemma EncodeAttributesSnoc(xs: seq<Attribute>, y: Attribute)
    ensures EncodeAttributes(xs + [y]) == EncodeAttributes(xs) + EncodeAttribute(y)
  {
    EncodeAttributesConcat(xs, [y]);
    assert EncodeAttributes([y]) == EncodeAttribute(y) + EncodeAttributes([]);
  }

  /** After the target is written (or its merge has failed). */
  lemma TargetWritten(done: seq<Attribute>, attr: Attribute, a: Annotation, mark: seq<byte>, data: seq<byte>,
                      merged: Result<seq<byte>>)
    requires MergeInto(done, |done|, a).Some?
    requires Agrees(merged, MergedBody(attr.info, a))
    requires merged.Ok? ==> data == mark + EncodeAttributes(MergeInto(done, |done|, a).value)
                                  + EncodeAttribute(Attribute(attr.nameIndex, merged.value))
    ensures merged.Ok? <==> MergeInto(done + [attr], |done|, a).Some?
    ensures merged.Ok? ==> data == mark + EncodeAttributes(MergeInto(done + [attr], |done|, a).value)
  {
    MergeIntoSnoc(done, attr, |done|, a);
    if merged.Ok? {
      EncodeAttributesSnoc(done, Attribute(attr.nameIndex, merged.value));
    }
  }

  /** After any other attribute is copied. */
  lemma OtherWritten(done: seq<Attribute>, attr: Attribute, rvaIndex: nat, a: Annotation, mark: seq<byte>, data: seq<byte>)
    requires |done| != rvaIndex && MergeInto(done, rvaIndex, a).Some?
    requires data == mark + EncodeAttributes(MergeInto(done, rvaIndex, a).value) + EncodeAttribute(attr)
    ensures MergeInto(done + [attr], rvaIndex, a).Some?
    ensures data == mark + EncodeAttributes(MergeInto(done + [attr], rvaIndex, a).value)
  {
    MergeIntoSnoc(done, attr, rvaIndex, a);
    EncodeAttributesSnoc(MergeInto(done, rvaIndex, a).value, attr);
  }

  lemma PrependNothing(r: Option<(seq<Attribute>, nat)>)
    ensures Prepend([], r) == r
  {
    if r.Some? {
      assert [] + r.value.0 == r.value.0;
    }
  }

  /** The merging loop after the attributes `done`, read from `start` up to
      `pos`: the rest of the table is still to be read from `pos`, and what
      is written after `mark` is those attributes with the merge applied. */
  ghost predicate MergeProgress(b: seq<byte>, start: nat, count: nat, pos: nat, done: seq<Attribute>,
                                rvaIndex: nat, a: Annotation, mark: seq<byte>, data: seq<byte>)
  {
    && |done| <= count
    && ParseAttributes(b, start, count) == Prepend(done, ParseAttributes(b, pos, count - |done|))
    && MergeInto(done, rvaIndex, a).Some?
    && data == mark + EncodeAttributes(MergeInto(done, rvaIndex, a).value)
  }

  /** Before the first attribute is read. */
  lemma MergeLoopEntry(b: seq<byte>, start: nat, count: nat, rvaIndex: nat, a: Annotation, mark: seq<byte>)
    ensures MergeProgress(b, start, count, start, [], rvaIndex, a, mark, mark)
  {
    PrependNothing(ParseAttributes(b, start, count));
    assert mark + EncodeAttributes([]) == mark;
  }

  /** When the merging loop has read all `count` attributes. */
  lemma MergeLoopExit(b: seq<byte>, start: nat, count: nat, pos: nat, done: seq<Attribute>,
                      rvaIndex: nat, a: Annotation, mark: seq<byte>, data: seq<byte>)
    requires MergeProgress(b, start, count, pos, done, rvaIndex, a, mark, data) && |done| == count
    ensures MergedAttributes(b, start, count, rvaIndex, a).Some?
    ensures data == mark + EncodeAttributes(MergedAttributes(b, start, count, rvaIndex, a).value)
  {
    assert done + [] == done;
  }

  /** The append path's output, from the table copied and the new attribute. */
  lemma AppendedTable(b: seq<byte>, start: nat, count: nat, x: Attribute, old0: seq<byte>, mark: seq<byte>, data: seq<byte>)
    requires ParseAttributes(b, start, count).Some?
    requires mark == old0 + U2(count + 1)
    requires data == mark + EncodeAttributes(ParseAttributes(b, start, count).value.0) + EncodeAttribute(x)
    ensures data == old0 + U2(count + 1) + EncodeAttributes(ParseAttributes(b, start, count).value.0 + [x])
  {
    EncodeAttributesSnoc(ParseAttributes(b, start, count).value.0, x);
  }

  // ---------------------------------------------------------------------
  // The imperative injector

  /** Reads one attribute (name, signed length, data) as the merging loop does. */
  method ReadAttribute(buffer: Cursor) returns (r: Result<Attribute>)
    requires buffer.Valid()
    modifies buffer`pos
    ensures buffer.Valid()
    ensures r.Ok? <==> AttributeEnd(buffer.data, old(buffer.pos)).Some?
    ensures r.Ok? ==> buffer.pos == AttributeEnd(buffer.data, old(buffer.pos)).value
                      && r.value == Attribute(U2At(buffer.data, old(buffer.pos)),
                                              buffer.data[old(buffer.pos) + 6..buffer.pos])
  {
    var nameIndex :- buffer.GetU2();
    var attrLen :- buffer.GetInt();
    var attrData :- buffer.GetBytes(attrLen);
    r := Ok(Attribute(nameIndex, attrData));
  }

  /** The ClassportInfo annotation injector for one record. */
  class AnnotationConstantPool {
    const annotationInfo: ClassportInfo

    constructor (annotationInfo: ClassportInfo)
      ensures this.annotationInfo == annotationInfo
    {
      this.annotationInfo := annotationInfo;
    }

    /** writeUtf8Entry after the entries `written`. */
    static method WriteNext(dos: ByteSink, ghost written: seq<CpEntry>, value: string) returns (r: Result<()>)
      requires dos.data == EncodeEntries(written)
      modifies dos
      ensures r.Ok? <==> |ModifiedUtf8(value)| < TWO_16
      ensures r.Ok? ==> dos.data == EncodeEntries(written + [Utf8(value)])
    {
      r := WriteUtf8Entry(dos, value);
      EncodeEntriesSnoc(written, Utf8(value));
    }

    /** writeUtf8Entry of an element name, which always fits. */
    static method WriteName(dos: ByteSink, ghost written: seq<CpEntry>, name: string)
      requires dos.data == EncodeEntries(written)
      requires PlainAscii(name) && |name| < TWO_16
      modifies dos
      ensures dos.data == EncodeEntries(written + [Utf8(name)])
    {
      AsciiLiteralFits(name);
      var r := WriteUtf8Entry(dos, name);
      EncodeEntriesSnoc(written, Utf8(name));
    }

    /** writeUtf8Entry of an element name, then of its value. */
    static method WritePair(dos: ByteSink, ghost written: seq<CpEntry>, name: string, value: string)
      returns (r: Result<()>)
      requires dos.data == EncodeEntries(written)
      requires PlainAscii(name) && |name| < TWO_16
      modifies dos
      ensures r.Ok? <==> |ModifiedUtf8(value)| < TWO_16
      ensures r.Ok? ==> dos.data == EncodeEntries(written + [Utf8(name), Utf8(value)])
    {
      WriteName(dos, written, name);
      r := WriteNext(dos, written + [Utf8(name)], value);
      assert written + [Utf8(name)] + [Utf8(value)] == written + [Utf8(name), Utf8(value)];
    }

    /** The head of getNewEntries: the descriptor, the four string elements
        (name, then value) and the childIds name. */
    static method WriteHeadEntries(dos: ByteSink, info: ClassportInfo) returns (r: Result<()>)
      requires dos.data == []
      modifies dos
      ensures r.Ok? <==> && |ModifiedUtf8(info.group)| < TWO_16 && |ModifiedUtf8(info.version)| < TWO_16
                         && |ModifiedUtf8(info.id)| < TWO_16 && |ModifiedUtf8(info.sourceProjectId)| < TWO_16
      ensures r.Ok? ==> dos.data == EncodeEntries(HeadEntries(info))
    {
      DescriptorIsAscii();
      ShortKeysAreAscii();
      ghost var w: seq<CpEntry> := [];
      WriteName(dos, w, DESCRIPTOR);
      w := w + [Utf8(DESCRIPTOR)];
      var _ :- WriteStringElementEntries(dos, w, info);
      w := w + StringElementEntries(info);
      WriteName(dos, w, "childIds");
      w := w + [Utf8("childIds")];
      HeadEntriesParts(info);
      r := Ok(());
    }

    static lemma HeadEntriesParts(info: ClassportInfo)
      ensures HeadEntries(info) == [] + [Utf8(DESCRIPTOR)] + StringElementEntries(info) + [Utf8("childIds")]
    {
    }

    /** The group, version, id and sourceProjectId entries, name then value. */
    static ghost function StringElementEntries(info: ClassportInfo): seq<CpEntry>
    {
      [Utf8("group"), Utf8(info.group), Utf8("version"), Utf8(info.version),
       Utf8("id"), Utf8(info.id), Utf8("sourceProjectId"), Utf8(info.sourceProjectId)]
    }

    static method WriteStringElementEntries(dos: ByteSink, ghost written: seq<CpEntry>, info: ClassportInfo)
      returns (r: Result<()>)
      requires dos.data == EncodeEntries(written)
      modifies dos
      ensures r.Ok? <==> && |ModifiedUtf8(info.group)| < TWO_16 && |ModifiedUtf8(info.version)| < TWO_16
                         && |ModifiedUtf8(info.id)| < TWO_16 && |ModifiedUtf8(info.sourceProjectId)| < TWO_16
      ensures r.Ok? ==> dos.data == EncodeEntries(written + StringElementEntries(info))
    {
      ShortKeysAreAscii();
      LongKeysAreAscii();
      var _ :- WriteTwoElements(dos, written, "group", info.group, "version", info.version);
      ghost var w := written + [Utf8("group"), Utf8(info.group), Utf8("version"), Utf8(info.version)];
      r := WriteTwoElements(dos, w, "id", info.id, "sourceProjectId", info.sourceProjectId);
      assert w + [Utf8("id"), Utf8(info.id), Utf8("sourceProjectId"), Utf8(info.sourceProjectId)]
          == written + StringElementEntries(info);
    }

    /** Two string elements' entries: name, value, name, value. */
    static method WriteTwoElements(dos: ByteSink, ghost written: seq<CpEntry>,
                                   name1: string, value1: string, name2: string, value2: string)
      returns (r: Result<()>)
      requires dos.data == EncodeEntries(written)
      requires PlainAscii(name1) && |name1| < TWO_16 && PlainAscii(name2) && |name2| < TWO_16
      modifies dos
      ensures r.Ok? <==> |ModifiedUtf8(value1)| < TWO_16 && |ModifiedUtf8(value2)| < TWO_16
      ensures r.Ok? ==> dos.data == EncodeEntries(written + [Utf8(name1), Utf8(value1), Utf8(name2), Utf8(value2)])
    {
      var _ :- WritePair(dos, written, name1, value1);
      r := WritePair(dos, written + [Utf8(name1), Utf8(value1)], name2, value2);
      assert written + [Utf8(name1), Utf8(value1)] + [Utf8(name2), Utf8(value2)]
          == written + [Utf8(name1), Utf8(value1), Utf8(name2), Utf8(value2)];
    }

    /** The tail of getNewEntries: the artefact element, then the
        isDirectDependency name and its Integer value. */
    static method WriteTailEntries(dos: ByteSink, ghost written: seq<CpEntry>, info: ClassportInfo) returns (r: Result<()>)
      requires dos.data == EncodeEntries(written)
      modifies dos
      ensures r.Ok? <==> |ModifiedUtf8(info.artefact)| < TWO_16
      ensures r.Ok? ==> dos.data == EncodeEntries(written + TailEntries(info))
    {
      ShortKeysAreAscii();
      LongKeysAreAscii();
      var _ :- WritePair(dos, written, "artefact", info.artefact);
      ghost var w := written + [Utf8("artefact"), Utf8(info.artefact)];
      WriteName(dos, w, "isDirectDependency");
      w := w + [Utf8("isDirectDependency")];
      var flag := if info.isDirectDependency then 1 else 0;
      WriteIntegerEntry(dos, flag);
      EncodeEntriesSnoc(w, Integer(flag));
      w := w + [Integer(flag)];
      assert w == written + TailEntries(info);
      r := Ok(());
    }

    /** getNewEntries(): the new entries, in order, and how many there are;
        fails (writeUTF's UTFDataFormatException) exactly when some text of
        the record is too long for a Utf8 entry. */
    method GetNewEntries() returns (r: Result<ConstantPoolData>)
      ensures r.Ok? <==> Encodable(annotationInfo)
      ensures r.Ok? ==> && r.value.entryCount == 14 + |annotationInfo.childIds|
                        && r.value.data == EncodeEntries(NewEntries(annotationInfo))
    {
      var info := annotationInfo;
      var dos := new ByteSink();
      var _ :- WriteHeadEntries(dos, info);
      var entryCount := 10;
      var _ :- WriteChildIdEntries(dos, HeadEntries(info), info.childIds);
      entryCount := entryCount + |info.childIds|;
      var _ :- WriteTailEntries(dos, HeadEntries(info) + Utf8s(info.childIds), info);
      entryCount := entryCount + 4;
      r := Ok(ConstantPoolData(entryCount, dos.data));
    }

    /** The loop of getNewEntries over the child ids: one Utf8 entry each. */
    static method WriteChildIdEntries(dos: ByteSink, ghost written: seq<CpEntry>, childIds: seq<string>)
      returns (r: Result<()>)
      requires dos.data == EncodeEntries(written)
      modifies dos
      ensures r.Ok? <==> TextsFit(childIds)
      ensures r.Ok? ==> dos.data == EncodeEntries(written + Utf8s(childIds))
    {
      var i := 0;
      ghost var w := written;
      assert childIds[..0] == [];
      while i < |childIds|
        invariant 0 <= i <= |childIds|
        invariant TextsFit(childIds[..i])
        invariant w == written + Utf8s(childIds[..i])
        invariant dos.data == EncodeEntries(w)
      {
        assert childIds[..i + 1] == childIds[..i] + [childIds[i]];
        Utf8sSnoc(childIds[..i], childIds[i]);
        var _ :- WriteChildIdEntry(dos, w, childIds, i);
        w := w + [Utf8(childIds[i])];
        i := i + 1;
      }
      assert childIds[..i] == childIds;
      r := Ok(());
    }

    /** One pass of that loop: the entry of child `i`. */
    static method WriteChildIdEntry(dos: ByteSink, ghost written: seq<CpEntry>, childIds: seq<string>, i: nat)
      returns (r: Result<()>)
      requires i < |childIds| && TextsFit(childIds[..i]) && dos.data == EncodeEntries(written)
      modifies dos
      ensures r.Ok? <==> |ModifiedUtf8(childIds[i])| < TWO_16
      ensures r.Ok? ==> && TextsFit(childIds[..i + 1])
                        && dos.data == EncodeEntries(written + [Utf8(childIds[i])])
    {
      r := WriteNext(dos, written, childIds[i]);
      if r.Ok? {
        TextsFitExtend(childIds, i);
      }
    }

    /** The CPIndices constructor: consecutive indices from baseCPCount,
        the child indices filled into an array in a loop. */
    method NewCPIndices(baseCPCount: int, existingRvaIndex: int) returns (ix: CPIndices)
      ensures ix == Indices(baseCPCount, |annotationInfo.childIds|, existingRvaIndex)
    {
      var offset := 0;
      var annotationTypeIndex := baseCPCount + offset;
      offset := offset + 1;
      var groupNameIndex := baseCPCount + offset;
      offset := offset + 1;
      var groupValueIndex := baseCPCount + offset;
      offset := offset + 1;
      var versionNameIndex := baseCPCount + offset;
      offset := offset + 1;
      var versionValueIndex := baseCPCount + offset;
      offset := offset + 1;
      var idNameIndex := baseCPCount + offset;
      offset := offset + 1;
      var idValueIndex := baseCPCount + offset;
      offset := offset + 1;
      var sourceProjectIdNameIndex := baseCPCount + offset;
      offset := offset + 1;
      var sourceProjectIdValueIndex := baseCPCount + offset;
      offset := offset + 1;
      var childIdsNameIndex := baseCPCount + offset;
      offset := offset + 1;
      var childIdsValueIndices := new int[|annotationInfo.childIds|];
      var i := 0;
      while i < childIdsValueIndices.Length
        invariant 0 <= i <= childIdsValueIndices.Length && offset == 10 + i
        invariant forall k :: 0 <= k < i ==> childIdsValueIndices[k] == baseCPCount + 10 + k
      {
        childIdsValueIndices[i] := baseCPCount + offset;
        offset := offset + 1;
        i := i + 1;
      }
      var artefactNameIndex := baseCPCount + offset;
      offset := offset + 1;
      var artefactValueIndex := baseCPCount + offset;
      offset := offset + 1;
      var isDirectDependencyNameIndex := baseCPCount + offset;
      offset := offset + 1;
      var isDirectDependencyValueIndex := baseCPCount + offset;
      offset := offset + 1;
      var rvaNameIndex := if existingRvaIndex > 0 then existingRvaIndex else baseCPCount + offset;
      ix := CPIndices(
        annotationTypeIndex, groupNameIndex, groupValueIndex, versionNameIndex, versionValueIndex,
        idNameIndex, idValueIndex, sourceProjectIdNameIndex, sourceProjectIdValueIndex,
        childIdsNameIndex, childIdsValueIndices[..],
        artefactNameIndex, artefactValueIndex, isDirectDependencyNameIndex, isDirectDependencyValueIndex,
        rvaNameIndex);
    }

    /** writeStringElementValue(out, nameIndex, valueIndex). */
    static method WriteStringElementValue(out: ByteSink, nameIndex: int, valueIndex: int)
      modifies out
      ensures out.data == old(out.data) + EncodePair(StringPair(nameIndex, valueIndex))
    {
      out.WriteShort(nameIndex);
      out.WriteByte(TAG_STRING);
      out.WriteShort(valueIndex);
    }

    /** The childIds element of writeAnnotation: name, '[', num_values, then
        's' and the index of each child. */
    method WriteChildIds(out: ByteSink, indices: CPIndices)
      requires |indices.childIdsValueIndices| == |annotationInfo.childIds|
      modifies out
      ensures out.data == old(out.data) + EncodePair(ClassportAnnotation(indices).pairs[4])
    {
      var vs := indices.childIdsValueIndices;
      out.WriteShort(indices.childIdsNameIndex);
      out.WriteByte(TAG_ARRAY);
      out.WriteShort(|annotationInfo.childIds|);
      WriteChildIdValues(out, vs);
      assert ClassportAnnotation(indices).pairs[4]
          == ElementValuePair(indices.childIdsNameIndex, ArrayValue(ChildIdValues(vs)));
    }

    /** The loop of that element: 's' and the index of each child. */
    static method WriteChildIdValues(out: ByteSink, vs: seq<int>)
      modifies out
      ensures out.data == old(out.data) + EncodeValues(ChildIdValues(vs))
    {
      ghost var mark := out.data;
      var i := 0;
      while i < |vs|
        invariant 0 <= i <= |vs|
        invariant out.data == mark + EncodeValues(ChildIdValues(vs[..i]))
      {
        out.WriteByte(TAG_STRING);
        out.WriteShort(vs[i]);
        assert ChildIdValues(vs[..i + 1]) == ChildIdValues(vs[..i]) + [ConstValue(TAG_STRING, vs[i])];
        EncodeValuesSnoc(ChildIdValues(vs[..i]), ConstValue(TAG_STRING, vs[i]));
        i := i + 1;
      }
      assert vs[..i] == vs;
    }

    /** writeAnnotation(out, indices): the ClassportInfo annotation. The
        injector only passes indices built for this record, so there is one
        child index per child id. */
    method WriteAnnotation(out: ByteSink, indices: CPIndices)
      requires |indices.childIdsValueIndices| == |annotationInfo.childIds|
      modifies out
      ensures out.data == old(out.data) + EncodeAnnotation(ClassportAnnotation(indices))
    {
      ghost var ps := ClassportAnnotation(indices).pairs;
      out.WriteShort(indices.annotationTypeIndex);
      out.WriteShort(7);
      WriteStringElements(out, indices);
      WriteChildIds(out, indices);
      WriteLastElements(out, indices);
      PairsOfSeven(ps);
    }

    /** The artefact and isDirectDependency elements of writeAnnotation. */
    static method WriteLastElements(out: ByteSink, indices: CPIndices)
      modifies out
      ensures out.data == old(out.data) + EncodePair(ClassportAnnotation(indices).pairs[5])
                                        + EncodePair(ClassportAnnotation(indices).pairs[6])
    {
      WriteStringElementValue(out, indices.artefactNameIndex, indices.artefactValueIndex);
      out.WriteShort(indices.isDirectDependencyNameIndex);
      out.WriteByte(TAG_BOOLEAN);
      out.WriteShort(indices.isDirectDependencyValueIndex);
    }

    /** Seven pairs: the first four, then each of the other three. */
    static lemma PairsOfSeven(ps: seq<ElementValuePair>)
      requires |ps| == 7
      ensures EncodePairs(ps) == EncodePairs(ps[..4]) + EncodePair(ps[4]) + EncodePair(ps[5]) + EncodePair(ps[6])
    {
      assert ps[..5] == ps[..4] + [ps[4]];
      EncodePairsSnoc(ps[..4], ps[4]);
      assert ps[..6] == ps[..5] + [ps[5]];
      EncodePairsSnoc(ps[..5], ps[5]);
      assert ps == ps[..6] + [ps[6]];
      EncodePairsSnoc(ps[..6], ps[6]);
    }

    /** The group, version, id and sourceProjectId elements of writeAnnotation. */
    static method WriteStringElements(out: ByteSink, indices: CPIndices)
      modifies out
      ensures out.data == old(out.data) + EncodePairs(ClassportAnnotation(indices).pairs[..4])
    {
      ghost var ps := ClassportAnnotation(indices).pairs;
      ghost var mark := out.data;
      assert ps[..0] == [];
      WriteStringElementValue(out, indices.groupNameIndex, indices.groupValueIndex);
      PairsPrefix(ps, 0, mark, out.data);
      WriteStringElementValue(out, indices.versionNameIndex, indices.versionValueIndex);
      PairsPrefix(ps, 1, mark, out.data);
      WriteStringElementValue(out, indices.idNameIndex, indices.idValueIndex);
      PairsPrefix(ps, 2, mark, out.data);
      WriteStringElementValue(out, indices.sourceProjectIdNameIndex, indices.sourceProjectIdValueIndex);
      PairsPrefix(ps, 3, mark, out.data);
    }

    /** The pairs up to k + 1 are the pairs up to k and pair k. */
    static lemma PairsPrefix(ps: seq<ElementValuePair>, k: nat, mark: seq<byte>, data: seq<byte>)
      requires k < |ps| && data == mark + EncodePairs(ps[..k]) + EncodePair(ps[k])
      ensures data == mark + EncodePairs(ps[..k + 1])
    {
      assert ps[..k + 1] == ps[..k] + [ps[k]];
      EncodePairsSnoc(ps[..k], ps[k]);
    }

    /** mergeAnnotation(existingRVA, indices). */
    method MergeAnnotation(existingRVA: seq<byte>, indices: CPIndices) returns (r: Result<seq<byte>>)
      requires |indices.childIdsValueIndices| == |annotationInfo.childIds|
      ensures Agrees(r, MergedBody(existingRVA, ClassportAnnotation(indices)))
    {
      var dataOut := new ByteSink();
      var buffer := new Cursor(existingRVA);
      var annotationCount :- buffer.GetU2();
      dataOut.WriteShort(annotationCount + 1);
      var remaining := buffer.GetBytes(|existingRVA| - buffer.pos);
      var existing := remaining.value;
      dataOut.Write(existing);
      WriteAnnotation(dataOut, indices);
      r := Ok(dataOut.data);
      assert dataOut.data == U2(U2At(existingRVA, 0) + 1) + existingRVA[2..] + EncodeAnnotation(ClassportAnnotation(indices));
    }

    /** createRuntimeVisibleAnnotations(indices). */
    method CreateRuntimeVisibleAnnotations(indices: CPIndices) returns (r: seq<byte>)
      requires |indices.childIdsValueIndices| == |annotationInfo.childIds|
      ensures r == CreatedBody(ClassportAnnotation(indices))
    {
      var dataOut := new ByteSink();
      dataOut.WriteShort(1);
      WriteAnnotation(dataOut, indices);
      r := dataOut.data;
    }

    /** One pass of the merging loop of injectAnnotation: read attribute
        `|done|`; write it merged when it is the target, as read otherwise. */
    method MergeStep(buffer: Cursor, dos: ByteSink, ghost start: nat, count: nat, i: nat, ghost done: seq<Attribute>,
                     rvaIndex: nat, ix: CPIndices, ghost mark: seq<byte>)
      returns (r: Result<Attribute>)
      requires |ix.childIdsValueIndices| == |annotationInfo.childIds|
      requires buffer.Valid() && i == |done| < count
      requires MergeProgress(buffer.data, start, count, buffer.pos, done, rvaIndex, ClassportAnnotation(ix), mark, dos.data)
      modifies buffer`pos, dos
      ensures buffer.Valid()
      ensures r.Err? ==> MergedAttributes(buffer.data, start, count, rvaIndex, ClassportAnnotation(ix)).None?
      ensures r.Ok? ==> MergeProgress(buffer.data, start, count, buffer.pos, done + [r.value], rvaIndex,
                                      ClassportAnnotation(ix), mark, dos.data)
    {
      ghost var a := ClassportAnnotation(ix);
      ghost var p := buffer.pos;
      var attr :- ReadAttribute(buffer);
      ghost var rest := ParseAttributes(buffer.data, buffer.pos, count - (i + 1));
      ParseAttributesStep(buffer.data, p, count - i);
      PrependTwice(done, attr, rest);
      var w := WriteAttribute(dos, i, done, attr, rvaIndex, ix, mark);
      if w.Err? {
        if rest.Some? {
          MergeIntoPrefixNone(done + [attr], rest.value.0, rvaIndex, a);
        }
        return Err(w.error);
      }
      r := Ok(attr);
    }

    /** The write half of that pass: the attribute merged when it is the
        target, as read otherwise. */
    method WriteAttribute(dos: ByteSink, i: nat, ghost done: seq<Attribute>, attr: Attribute, rvaIndex: nat,
                          ix: CPIndices, ghost mark: seq<byte>)
      returns (r: Result<()>)
      requires |ix.childIdsValueIndices| == |annotationInfo.childIds|
      requires i == |done| && MergeInto(done, rvaIndex, ClassportAnnotation(ix)).Some?
      requires dos.data == mark + EncodeAttributes(MergeInto(done, rvaIndex, ClassportAnnotation(ix)).value)
      modifies dos
      ensures r.Ok? <==> MergeInto(done + [attr], rvaIndex, ClassportAnnotation(ix)).Some?
      ensures r.Ok? ==> dos.data == mark + EncodeAttributes(MergeInto(done + [attr], rvaIndex, ClassportAnnotation(ix)).value)
    {
      ghost var a := ClassportAnnotation(ix);
      if i == rvaIndex {
        var merged := WriteMerged(dos, attr, ix);
        TargetWritten(done, attr, a, mark, dos.data, merged);
        r := if merged.Ok? then Ok(()) else Err(merged.error);
      } else {
        WriteCopied(dos, attr);
        OtherWritten(done, attr, rvaIndex, a, mark, dos.data);
        r := Ok(());
      }
    }

    /** The target: its name, then the merged body and its length. */
    method WriteMerged(dos: ByteSink, attr: Attribute, ix: CPIndices) returns (r: Result<seq<byte>>)
      requires |ix.childIdsValueIndices| == |annotationInfo.childIds|
      modifies dos
      ensures Agrees(r, MergedBody(attr.info, ClassportAnnotation(ix)))
      ensures r.Ok? ==> dos.data == old(dos.data) + EncodeAttribute(Attribute(attr.nameIndex, r.value))
    {
      dos.WriteShort(attr.nameIndex);
      var merged :- MergeAnnotation(attr.info, ix);
      dos.WriteInt(|merged|);
      dos.Write(merged);
      r := Ok(merged);
    }

    /** Any other attribute: name, length and data as read. */
    static method WriteCopied(dos: ByteSink, attr: Attribute)
      modifies dos
      ensures dos.data == old(dos.data) + EncodeAttribute(attr)
    {
      dos.WriteShort(attr.nameIndex);
      dos.WriteInt(|attr.info|);
      dos.Write(attr.info);
    }

    /** The class attribute table of injectAnnotation: its count, the
        search for an annotations attribute, then the merge or the append. */
    method InjectClassAttributes(buffer: Cursor, dos: ByteSink, ix: CPIndices) returns (r: Result<()>)
      requires |ix.childIdsValueIndices| == |annotationInfo.childIds|
      requires buffer.Valid()
      modifies buffer`pos, dos
      ensures buffer.Valid()
      ensures AppendedSpec(r, old(dos.data), dos.data, AttributeSection(buffer.data, old(buffer.pos), ix))
    {
      ghost var start := buffer.pos;
      var classAttrCount :- buffer.GetU2();
      var found := FindRuntimeVisibleAnnotationsAttribute(buffer.data, buffer.pos - 2, classAttrCount);
      SectionAfterSearch(buffer.data, start, ix, found);
      if found.Err? {
        return Err(found.error);
      }
      r := RewriteAttributes(buffer, dos, classAttrCount, found.value, ix);
    }

    /** The merge when the search found an annotations attribute, the
        append otherwise. */
    method RewriteAttributes(buffer: Cursor, dos: ByteSink, count: nat, rvaIndex: int, ix: CPIndices)
      returns (r: Result<()>)
      requires |ix.childIdsValueIndices| == |annotationInfo.childIds|
      requires buffer.Valid()
      modifies buffer`pos, dos
      ensures buffer.Valid()
      ensures AppendedSpec(r, old(dos.data), dos.data,
                           RewrittenTable(buffer.data, old(buffer.pos), count, rvaIndex, ClassportAnnotation(ix), ix.rvaNameIndex))
    {
      if rvaIndex >= 0 {
        r := MergeAttributes(buffer, dos, count, rvaIndex, ix);
      } else {
        r := AppendAttribute(buffer, dos, count, ix);
      }
    }

    /** The merge path: the count, then every attribute read, the target
        written merged. */
    method MergeAttributes(buffer: Cursor, dos: ByteSink, count: nat, rvaIndex: nat, ix: CPIndices)
      returns (r: Result<()>)
      requires |ix.childIdsValueIndices| == |annotationInfo.childIds|
      requires buffer.Valid()
      modifies buffer`pos, dos
      ensures buffer.Valid()
      ensures AppendedSpec(r, old(dos.data), dos.data, MergePath(buffer.data, old(buffer.pos), count, rvaIndex, ClassportAnnotation(ix)))
    {
      ghost var start := buffer.pos;
      ghost var a := ClassportAnnotation(ix);
      dos.WriteShort(count);
      ghost var mark := dos.data;
      ghost var done: seq<Attribute> := [];
      MergeLoopEntry(buffer.data, start, count, rvaIndex, a, mark);
      var i := 0;
      while i < count
        invariant buffer.Valid() && i == |done|
        invariant MergeProgress(buffer.data, start, count, buffer.pos, done, rvaIndex, a, mark, dos.data)
      {
        var attr :- MergeStep(buffer, dos, start, count, i, done, rvaIndex, ix, mark);
        done, i := done + [attr], i + 1;
      }
      MergeLoopExit(buffer.data, start, count, buffer.pos, done, rvaIndex, a, mark, dos.data);
      r := Ok(());
    }

    /** The append path: the count plus one, every attribute copied as
        read, then the new annotations attribute. */
    method AppendAttribute(buffer: Cursor, dos: ByteSink, count: nat, ix: CPIndices) returns (r: Result<()>)
      requires |ix.childIdsValueIndices| == |annotationInfo.childIds|
      requires buffer.Valid()
      modifies buffer`pos, dos
      ensures buffer.Valid()
      ensures AppendedSpec(r, old(dos.data), dos.data,
                           AppendPath(buffer.data, old(buffer.pos), count, ClassportAnnotation(ix), ix.rvaNameIndex))
    {
      ghost var start := buffer.pos;
      dos.WriteShort(count + 1);
      ghost var mark := dos.data;
      var _ :- CopyAttributeTable(buffer, dos, count);
      var newRVA := CreateRuntimeVisibleAnnotations(ix);
      WriteCopied(dos, Attribute(ix.rvaNameIndex, newRVA));
      AppendedTable(buffer.data, start, count, Attribute(ix.rvaNameIndex, newRVA), old(dos.data), mark, dos.data);
      r := Ok(());
    }

    /** The attributes copied as read, in their own encoding. */
    static method CopyAttributeTable(buffer: Cursor, dos: ByteSink, count: nat) returns (r: Result<()>)
      requires buffer.Valid()
      modifies buffer`pos, dos
      ensures buffer.Valid()
      ensures r.Ok? <==> ParseAttributes(buffer.data, old(buffer.pos), count).Some?
      ensures r.Ok? ==> dos.data == old(dos.data)
                        + EncodeAttributes(ParseAttributes(buffer.data, old(buffer.pos), count).value.0)
    {
      ghost var start := buffer.pos;
      ParseAttributesSkips(buffer.data, start, count);
      var _ :- CopyAttributes(buffer, dos, count);
      ParseAttributesEncodes(buffer.data, start, count);
      r := Ok(());
    }

    /** injectAnnotation(originalBytes, cpd): the output buffer, then the
        header, the pool, the class body and the attribute table in turn. */
    method InjectAnnotation(originalBytes: seq<byte>, cpd: ConstantPoolData) returns (r: Result<seq<byte>>)
      ensures Agrees(r, InjectSpec(annotationInfo, originalBytes, cpd))
    {
      if !CapacityOk(|originalBytes|, |cpd.data|) {
        return Err(IllegalArgument);
      }
      r := InjectIntoBuffer(originalBytes, cpd);
    }

    /** The copy into the new output buffer. */
    method InjectIntoBuffer(originalBytes: seq<byte>, cpd: ConstantPoolData) returns (r: Result<seq<byte>>)
      ensures Agrees(r, InjectWithCapacity(annotationInfo, originalBytes, cpd))
    {
      var buffer := new Cursor(originalBytes);
      var dos := new ByteSink();
      var _ :- CopyVersionHeader(buffer, dos);
      var p :- WritePoolSection(buffer, dos, cpd);
      r := InjectAfterPoolSection(buffer, dos, p, cpd);
    }

    /** The class body copied, then the attribute table rewritten. */
    method InjectAfterPoolSection(buffer: Cursor, dos: ByteSink, p: PoolInfo, ghost cpd: ConstantPoolData)
      returns (r: Result<seq<byte>>)
      requires buffer.Valid() && 10 <= p.cpEnd == buffer.pos
      requires dos.data == PoolSection(buffer.data, p, cpd)
      modifies buffer`pos, dos
      ensures Agrees(r, InjectAfterPool(annotationInfo, buffer.data, p, cpd))
    {
      var _ :- CopyClassBody(buffer, dos);
      var ix := NewCPIndices(p.count, if p.rvaUtf8 > 0 then p.rvaUtf8 else -1);
      var _ :- InjectClassAttributes(buffer, dos, ix);
      r := Ok(dos.data);
    }

    /** The magic number and the two versions, copied as read. */
    static method CopyVersionHeader(buffer: Cursor, dos: ByteSink) returns (r: Result<()>)
      requires buffer.Valid() && buffer.pos == 0 && dos.data == []
      modifies buffer`pos, dos
      ensures buffer.Valid()
      ensures r.Ok? <==> 8 <= |buffer.data|
      ensures r.Ok? ==> buffer.pos == 8 && dos.data == buffer.data[..8]
    {
      var magic :- buffer.GetInt();
      dos.WriteInt(magic);
      U4Of(buffer.data, 0);
      var _ :- CopyU2(buffer, dos);
      var _ :- CopyU2(buffer, dos);
      assert buffer.data[..8] == buffer.data[0..4] + buffer.data[4..6] + buffer.data[6..8];
      r := Ok(());
    }

    /** dos.writeShort(buffer.getShort()). */
    static method CopyU2(buffer: Cursor, dos: ByteSink) returns (r: Result<()>)
      requires buffer.Valid()
      modifies buffer`pos, dos
      ensures buffer.Valid()
      ensures r.Ok? <==> old(buffer.pos) + 2 <= |buffer.data|
      ensures r.Ok? ==> buffer.pos == old(buffer.pos) + 2
                        && dos.data == old(dos.data) + buffer.data[old(buffer.pos)..buffer.pos]
      ensures r.Err? ==> dos.data == old(dos.data)
    {
      var v :- buffer.GetU2();
      dos.WriteShort(v);
      U2Of(buffer.data, buffer.pos - 2);
      r := Ok(());
    }

    /** The constant pool: its count, the skip over it, the search for an
        existing "RuntimeVisibleAnnotations" name, then the new count, the
        old entries, the new entries and the name when it is missing. */
    static method WritePoolSection(buffer: Cursor, dos: ByteSink, cpd: ConstantPoolData) returns (r: Result<PoolInfo>)
      requires buffer.Valid() && buffer.pos == 8 && dos.data == buffer.data[..8]
      modifies buffer`pos, dos
      ensures buffer.Valid()
      ensures Agrees(r, ReadPool(buffer.data))
      ensures r.Ok? ==> buffer.pos == r.value.cpEnd && dos.data == PoolSection(buffer.data, r.value, cpd)
    {
      var read :- ReadPoolInfo(buffer);
      var info := read.0;
      WriteNewPool(dos, read.1, cpd, info);
      r := Ok(info);
    }

    /** The reads of the pool: its count, the skip over it, the bytes
        between, and the search for an existing "RuntimeVisibleAnnotations"
        name among them. */
    static method ReadPoolInfo(buffer: Cursor) returns (r: Result<(PoolInfo, seq<byte>)>)
      requires buffer.Valid() && buffer.pos == 8
      modifies buffer`pos
      ensures buffer.Valid()
      ensures r.Ok? <==> ReadPool(buffer.data).Some?
      ensures r.Ok? ==> && r.value.0 == ReadPool(buffer.data).value && buffer.pos == r.value.0.cpEnd
                        && r.value.1 == buffer.data[10..r.value.0.cpEnd]
    {
      var originalConstantPoolCount :- buffer.GetU2();
      var cpStart := buffer.pos;
      var entries := originalConstantPoolCount as int - 1;
      var _ :- CP.SkipConstantPool(buffer, entries);
      var cpEnd := buffer.pos;
      var _ := buffer.SetPosition(cpStart);
      var existing := buffer.GetBytes(cpEnd - cpStart);
      var existingCpData := existing.value;
      var rvaUtf8Index :- CP.FindUtf8InConstantPool(existingCpData, entries, RvaNameBytes());
      r := Ok((PoolInfo(originalConstantPoolCount, cpEnd, rvaUtf8Index), existingCpData));
    }

    /** The writes of the pool section after the magic and versions: the
        new count, the old entries, the new entries, the name when missing. */
    static method WriteNewPool(dos: ByteSink, existingCpData: seq<byte>, cpd: ConstantPoolData, info: PoolInfo)
      modifies dos
      ensures dos.data == old(dos.data) + U2(NewPoolCount(info, cpd)) + existingCpData + cpd.data + AppendedName(info)
    {
      var newConstantPoolCount := info.count + cpd.entryCount;
      if info.rvaUtf8 <= 0 {
        newConstantPoolCount := newConstantPoolCount + 1;
      }
      dos.WriteShort(newConstantPoolCount);
      dos.Write(existingCpData);
      dos.Write(cpd.data);
      if info.rvaUtf8 <= 0 {
        WriteRvaName(dos);
      }
    }

    /** writeUtf8Entry(dos, "RuntimeVisibleAnnotations"), which always fits. */
    static method WriteRvaName(dos: ByteSink)
      modifies dos
      ensures dos.data == old(dos.data) + RvaNameEntry()
    {
      LongKeysAreAscii();
      AsciiLiteralFits(RVA_NAME);
      var _ := WriteUtf8Entry(dos, RVA_NAME);
    }

    /** The class info and interfaces, then the fields and the methods,
        copied as read. */
    static method CopyClassBody(buffer: Cursor, dos: ByteSink) returns (r: Result<()>)
      requires buffer.Valid()
      modifies buffer`pos, dos
      ensures buffer.Valid()
      ensures r.Ok? <==> ClassBodyEnd(buffer.data, old(buffer.pos)).Some?
      ensures r.Ok? ==> buffer.pos == ClassBodyEnd(buffer.data, old(buffer.pos)).value
                        && dos.data == old(dos.data) + buffer.data[old(buffer.pos)..buffer.pos]
    {
      ghost var start, mark := buffer.pos, dos.data;
      var _ :- CopyClassInfo(buffer, dos);
      ghost var p1 := buffer.pos;
      var _ :- CopyMembers(buffer, dos);
      CopiedSlice(buffer.data, start, p1, buffer.pos, mark, dos.data);
      ghost var p2 := buffer.pos;
      var _ :- CopyMembers(buffer, dos);
      CopiedSlice(buffer.data, start, p2, buffer.pos, mark, dos.data);
      r := Ok(());
    }

    /** access_flags, this_class, super_class, interfaces_count and the
        interfaces, copied as read. */
    static method CopyClassInfo(buffer: Cursor, dos: ByteSink) returns (r: Result<()>)
      requires buffer.Valid()
      modifies buffer`pos, dos
      ensures buffer.Valid()
      ensures r.Ok? <==> ClassInfoEnd(buffer.data, old(buffer.pos)).Some?
      ensures r.Ok? ==> buffer.pos == ClassInfoEnd(buffer.data, old(buffer.pos)).value
                        && dos.data == old(dos.data) + buffer.data[old(buffer.pos)..buffer.pos]
    {
      var start := buffer.pos;
      ghost var mark := dos.data;
      var _ :- CopyU2(buffer, dos);
      var _ :- CopyU2(buffer, dos);
      var _ :- CopyU2(buffer, dos);
      var interfaceCount :- buffer.GetU2();
      dos.WriteShort(interfaceCount);
      U2Of(buffer.data, start + 6);
      assert dos.data == mark + buffer.data[start..start + 8];
      var i := 0;
      while i < interfaceCount
        invariant buffer.Valid() && i <= interfaceCount
        invariant buffer.pos == start + 8 + 2 * i
        invariant dos.data == mark + buffer.data[start..buffer.pos]
      {
        ghost var q := buffer.pos;
        var _ :- CopyU2(buffer, dos);
        CopiedSlice(buffer.data, start, q, buffer.pos, mark, dos.data);
        i := i + 1;
      }
      r := Ok(());
    }
  }
}
