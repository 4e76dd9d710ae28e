/** The constant-pool entries the injector appends for one ClassportInfo
    annotation (getNewEntries, writeUtf8Entry, writeIntegerEntry), and the
    indices those entries receive (CPIndices). */
module AnnotationEntries {
  import opened Wrappers
  import opened Bytes
  import opened Buffers
  import opened Records
  import CP = ConstantPool
  import ClassFile

  const DESCRIPTOR: string := "Lio/github/project/classport/commons/ClassportInfo;"

  /** A constant-pool entry the injector writes, before encoding: a Utf8
      entry's text is a Java string (JVMS 4.4.7 and 4.4.4). */
  datatype CpEntry = Utf8(text: string) | Integer(value: int)

  /** The child ids as Utf8 entries, in order. */
  function Utf8s(ss: seq<string>): (es: seq<CpEntry>)
    ensures |es| == |ss|
    ensures forall k :: 0 <= k < |ss| ==> es[k] == Utf8(ss[k])
  {
    seq(|ss|, k requires 0 <= k < |ss| => Utf8(ss[k]))
  }

  /** writeUTF accepts every one of the texts. */
  predicate TextsFit(ss: seq<string>)
  {
    forall k :: 0 <= k < |ss| ==> |ModifiedUtf8(ss[k])| < TWO_16
  }

  /** The texts before `i` and text `i` fit: the texts up to `i` fit. */
  lemma TextsFitExtend(ss: seq<string>, i: nat)
    requires i < |ss| && TextsFit(ss[..i]) && |ModifiedUtf8(ss[i])| < TWO_16
    ensures TextsFit(ss[..i + 1])
  {
    assert forall k :: 0 <= k < i ==> ss[..i + 1][k] == ss[..i][k];
  }

  /** One more child id, one more entry. */
  lemma Utf8sSnoc(ss: seq<string>, s: string)
    ensures Utf8s(ss + [s]) == Utf8s(ss) + [Utf8(s)]
  {
  }

  /** The entries getNewEntries appends, in the order it writes them: the
      annotation's type descriptor, then each element's name followed by its
      value (the childIds name followed by one entry per child), the
      isDirectDependency value being an Integer 1 or 0. */
  function NewEntries(info: ClassportInfo): (es: seq<CpEntry>)
    ensures |es| == 14 + |info.childIds|
  {
    HeadEntries(info) + Utf8s(info.childIds) + TailEntries(info)
  }

  /** The entries before the children. */
  function HeadEntries(info: ClassportInfo): seq<CpEntry>
  {
    [Utf8(DESCRIPTOR),
     Utf8("group"), Utf8(info.group),
     Utf8("version"), Utf8(info.version),
     Utf8("id"), Utf8(info.id),
     Utf8("sourceProjectId"), Utf8(info.sourceProjectId),
     Utf8("childIds")]
  }

  /** The entries after the children. */
  function TailEntries(info: ClassportInfo): seq<CpEntry>
  {
    [Utf8("artefact"), Utf8(info.artefact),
     Utf8("isDirectDependency"), Integer(if info.isDirectDependency then 1 else 0)]
  }

  /** The position of entry `j` of the new entries in the three parts. */
  lemma NewEntryAt(info: ClassportInfo, j: nat)
    requires j < 14 + |info.childIds|
    ensures j < 10 ==> NewEntries(info)[j] == HeadEntries(info)[j]
    ensures 10 <= j < 10 + |info.childIds| ==> NewEntries(info)[j] == Utf8(info.childIds[j - 10])
    ensures 10 + |info.childIds| <= j ==> NewEntries(info)[j] == TailEntries(info)[j - 10 - |info.childIds|]
  {
  }

  /** The entry as written: a Utf8 entry's text becomes its modified UTF-8. */
  function Lower(e: CpEntry): CP.PoolEntry
  {
    match e
    case Utf8(text) => CP.Utf8Bytes(ModifiedUtf8(text))
    case Integer(v) => CP.IntegerValue(v)
  }

  function Lowered(es: seq<CpEntry>): (ps: seq<CP.PoolEntry>)
    ensures |ps| == |es|
    ensures forall j :: 0 <= j < |es| ==> ps[j] == Lower(es[j])
  {
    seq(|es|, j requires 0 <= j < |es| => Lower(es[j]))
  }

  /** writeUTF accepts the entry's text: its modified UTF-8 fits a u2 length. */
  predicate Fits(e: CpEntry)
  {
    e.Utf8? ==> |ModifiedUtf8(e.text)| < TWO_16
  }

  /** Every entry of the list fits. */
  predicate AllFit(es: seq<CpEntry>)
  {
    forall j :: 0 <= j < |es| ==> Fits(es[j])
  }

  lemma AllFitConcat(a: seq<CpEntry>, b: seq<CpEntry>)
    ensures AllFit(a + b) <==> AllFit(a) && AllFit(b)
  {
    if AllFit(a + b) {
      forall j | 0 <= j < |a| ensures Fits(a[j]) { assert a[j] == (a + b)[j]; }
      forall j | 0 <= j < |b| ensures Fits(b[j]) { assert b[j] == (a + b)[|a| + j]; }
    }
  }

  /** The bytes writeUtf8Entry or writeIntegerEntry emit for one entry. */
  function EncodeEntry(e: CpEntry): seq<byte>
  {
    CP.EncodePoolEntry(Lower(e))
  }

  /** The bytes of a list of entries, one after the other. */
  function EncodeEntries(es: seq<CpEntry>): seq<byte>
  {
    CP.EncodePool(Lowered(es))
  }

  /** Every text of the record passes writeUTF's length limit. */
  predicate Encodable(info: ClassportInfo)
  {
    && |ModifiedUtf8(info.group)| < TWO_16
    && |ModifiedUtf8(info.version)| < TWO_16
    && |ModifiedUtf8(info.id)| < TWO_16
    && |ModifiedUtf8(info.sourceProjectId)| < TWO_16
    && (forall k :: 0 <= k < |info.childIds| ==> |ModifiedUtf8(info.childIds[k])| < TWO_16)
    && |ModifiedUtf8(info.artefact)| < TWO_16
  }

  /** A literal made of plain ASCII is its own modified UTF-8. */
  lemma AsciiLiteralFits(s: string)
    requires PlainAscii(s)
    ensures |ModifiedUtf8(s)| == |s|
  {
    ModifiedUtf8OfAscii(s);
  }

  lemma DescriptorIsAscii()
    ensures PlainAscii(DESCRIPTOR)
  {
    var a, b, c, d, e := "Lio/github/", "project/", "classport/", "commons/", "ClassportInfo;";
    assert PlainAscii(a);
    assert PlainAscii(b);
    assert PlainAscii(c);
    assert PlainAscii(d);
    assert PlainAscii(e);
    PlainAsciiConcat(a, b);
    PlainAsciiConcat(a + b, c);
    PlainAsciiConcat(a + b + c, d);
    PlainAsciiConcat(a + b + c + d, e);
  }

  lemma ShortKeysAreAscii()
    ensures PlainAscii("group") && PlainAscii("version") && PlainAscii("id")
    ensures PlainAscii("childIds") && PlainAscii("artefact")
  {
  }

  lemma LongKeysAreAscii()
    ensures PlainAscii("sourceProjectId") && PlainAscii("isDirectDependency") && PlainAscii(ClassFile.RVA_NAME)
  {
  }

  /** The key literals getNewEntries writes always fit writeUTF's limit. */
  lemma KeysFit()
    ensures |ModifiedUtf8(DESCRIPTOR)| == 51
    ensures |ModifiedUtf8("group")| == 5 && |ModifiedUtf8("version")| == 7
    ensures |ModifiedUtf8("id")| == 2 && |ModifiedUtf8("sourceProjectId")| == 15
    ensures |ModifiedUtf8("childIds")| == 8 && |ModifiedUtf8("artefact")| == 8
    ensures |ModifiedUtf8("isDirectDependency")| == 18
    ensures |ModifiedUtf8(ClassFile.RVA_NAME)| == 25
  {
    DescriptorIsAscii();
    ShortKeysAreAscii();
    LongKeysAreAscii();
    AsciiLiteralFits(DESCRIPTOR);
    AsciiLiteralFits("group");
    AsciiLiteralFits("version");
    AsciiLiteralFits("id");
    AsciiLiteralFits("sourceProjectId");
    AsciiLiteralFits("childIds");
    AsciiLiteralFits("artefact");
    AsciiLiteralFits("isDirectDependency");
    AsciiLiteralFits(ClassFile.RVA_NAME);
  }

  lemma HeadEntriesFit(info: ClassportInfo)
    ensures AllFit(HeadEntries(info)) <==>
      && |ModifiedUtf8(info.group)| < TWO_16
      && |ModifiedUtf8(info.version)| < TWO_16
      && |ModifiedUtf8(info.id)| < TWO_16
      && |ModifiedUtf8(info.sourceProjectId)| < TWO_16
  {
    KeysFit();
    var h := HeadEntries(info);
    assert h[2] == Utf8(info.group) && h[4] == Utf8(info.version);
    assert h[6] == Utf8(info.id) && h[8] == Utf8(info.sourceProjectId);
  }

  lemma TailEntriesFit(info: ClassportInfo)
    ensures AllFit(TailEntries(info)) <==> |ModifiedUtf8(info.artefact)| < TWO_16
  {
    KeysFit();
    assert TailEntries(info)[1] == Utf8(info.artefact);
  }

  lemma ChildEntriesFit(ss: seq<string>)
    ensures AllFit(Utf8s(ss)) <==> forall k :: 0 <= k < |ss| ==> |ModifiedUtf8(ss[k])| < TWO_16
  {
  }

  /** getNewEntries can encode every entry exactly when every text of the
      record fits writeUTF's limit. */
  lemma NewEntriesEncodable(info: ClassportInfo)
    ensures Encodable(info) <==> AllFit(NewEntries(info))
  {
    var h, c, t := HeadEntries(info), Utf8s(info.childIds), TailEntries(info);
    AllFitConcat(h, c);
    AllFitConcat(h + c, t);
    HeadEntriesFit(info);
    TailEntriesFit(info);
    ChildEntriesFit(info.childIds);
  }

  /** Appending an entry appends its encoding. */
  lemma EncodeEntriesSnoc(es: seq<CpEntry>, e: CpEntry)
    ensures EncodeEntries(es + [e]) == EncodeEntries(es) + EncodeEntry(e)
  {
    assert Lowered(es + [e]) == Lowered(es) + [Lower(e)];
    CP.EncodePoolSnoc(Lowered(es), Lower(e));
  }

  /** The data getNewEntries returns together with its entry count. */
  datatype ConstantPoolData = ConstantPoolData(entryCount: int, data: seq<byte>)

  /** writeUtf8Entry(out, value). */
  method WriteUtf8Entry(out: ByteSink, value: string) returns (r: Result<()>)
    modifies out
    ensures r.Ok? <==> Fits(Utf8(value))
    ensures r.Ok? ==> out.data == old(out.data) + EncodeEntry(Utf8(value))
  {
    out.WriteByte(1);
    r := out.WriteUtf(value);
  }

  /** writeIntegerEntry(out, value). */
  method WriteIntegerEntry(out: ByteSink, value: int)
    modifies out
    ensures out.data == old(out.data) + EncodeEntry(Integer(value))
  {
    out.WriteByte(3);
    out.WriteInt(value);
  }

  /** The 1-based pool indices the new annotation refers to (CPIndices). */
  datatype CPIndices = CPIndices(
    annotationTypeIndex: int,
    groupNameIndex: int, groupValueIndex: int,
    versionNameIndex: int, versionValueIndex: int,
    idNameIndex: int, idValueIndex: int,
    sourceProjectIdNameIndex: int, sourceProjectIdValueIndex: int,
    childIdsNameIndex: int, childIdsValueIndices: seq<int>,
    artefactNameIndex: int, artefactValueIndex: int,
    isDirectDependencyNameIndex: int, isDirectDependencyValueIndex: int,
    rvaNameIndex: int)
  {
    /** The indices of the new entries, in field order. */
    function Slots(): seq<int>
    {
      [annotationTypeIndex, groupNameIndex, groupValueIndex, versionNameIndex, versionValueIndex,
       idNameIndex, idValueIndex, sourceProjectIdNameIndex, sourceProjectIdValueIndex, childIdsNameIndex]
      + childIdsValueIndices
      + [artefactNameIndex, artefactValueIndex, isDirectDependencyNameIndex, isDirectDependencyValueIndex]
    }

    /** The indices are consecutive from `base`, one per new entry. */
    predicate Consecutive(base: int, childCount: nat)
    {
      && |childIdsValueIndices| == childCount
      && |Slots()| == 14 + childCount
      && forall j :: 0 <= j < |Slots()| ==> Slots()[j] == base + j
    }
  }

  /** The new entry at pool index `index` when the new entries start at `base`. */
  function EntryAt(info: ClassportInfo, base: int, index: int): Option<CpEntry>
  {
    var es := NewEntries(info);
    if 0 <= index - base < |es| then Some(es[index - base]) else None
  }

  /** Each field of consecutive indices names the new entry that holds what
      the field is about: the k-th child index the k-th child id, the
      isDirectDependency value index the Integer flag, and so on. */
  lemma IndicesMatchEntries(info: ClassportInfo, ix: CPIndices, base: int)
    requires ix.Consecutive(base, |info.childIds|)
    ensures EntryAt(info, base, ix.annotationTypeIndex) == Some(Utf8(DESCRIPTOR))
    ensures EntryAt(info, base, ix.groupNameIndex) == Some(Utf8("group"))
    ensures EntryAt(info, base, ix.groupValueIndex) == Some(Utf8(info.group))
    ensures EntryAt(info, base, ix.versionNameIndex) == Some(Utf8("version"))
    ensures EntryAt(info, base, ix.versionValueIndex) == Some(Utf8(info.version))
    ensures EntryAt(info, base, ix.idNameIndex) == Some(Utf8("id"))
    ensures EntryAt(info, base, ix.idValueIndex) == Some(Utf8(info.id))
    ensures EntryAt(info, base, ix.sourceProjectIdNameIndex) == Some(Utf8("sourceProjectId"))
    ensures EntryAt(info, base, ix.sourceProjectIdValueIndex) == Some(Utf8(info.sourceProjectId))
    ensures EntryAt(info, base, ix.childIdsNameIndex) == Some(Utf8("childIds"))
    ensures forall k :: 0 <= k < |info.childIds| ==>
              EntryAt(info, base, ix.childIdsValueIndices[k]) == Some(Utf8(info.childIds[k]))
    ensures EntryAt(info, base, ix.artefactNameIndex) == Some(Utf8("artefact"))
    ensures EntryAt(info, base, ix.artefactValueIndex) == Some(Utf8(info.artefact))
    ensures EntryAt(info, base, ix.isDirectDependencyNameIndex) == Some(Utf8("isDirectDependency"))
    ensures EntryAt(info, base, ix.isDirectDependencyValueIndex)
              == Some(Integer(if info.isDirectDependency then 1 else 0))
  {
    HeadIndicesMatch(info, ix, base);
    ChildIndicesMatch(info, ix, base);
    TailIndicesMatch(info, ix, base);
  }

  /** The indices before the children: the type and the first four
      elements' names and values, and the childIds name. */
  lemma HeadIndicesMatch(info: ClassportInfo, ix: CPIndices, base: int)
    requires ix.Consecutive(base, |info.childIds|)
    ensures EntryAt(info, base, ix.annotationTypeIndex) == Some(Utf8(DESCRIPTOR))
    ensures EntryAt(info, base, ix.groupNameIndex) == Some(Utf8("group"))
    ensures EntryAt(info, base, ix.groupValueIndex) == Some(Utf8(info.group))
    ensures EntryAt(info, base, ix.versionNameIndex) == Some(Utf8("version"))
    ensures EntryAt(info, base, ix.versionValueIndex) == Some(Utf8(info.version))
    ensures EntryAt(info, base, ix.idNameIndex) == Some(Utf8("id"))
    ensures EntryAt(info, base, ix.idValueIndex) == Some(Utf8(info.id))
    ensures EntryAt(info, base, ix.sourceProjectIdNameIndex) == Some(Utf8("sourceProjectId"))
    ensures EntryAt(info, base, ix.sourceProjectIdValueIndex) == Some(Utf8(info.sourceProjectId))
    ensures EntryAt(info, base, ix.childIdsNameIndex) == Some(Utf8("childIds"))
  {
    HeadSlots(ix, base, |info.childIds|);
    forall j | 0 <= j < 10 ensures EntryAt(info, base, base + j) == Some(HeadEntries(info)[j]) {
      NewEntryAt(info, j);
    }
  }

  /** Consecutive indices before the children, field by field. */
  lemma HeadSlots(ix: CPIndices, base: int, childCount: nat)
    requires ix.Consecutive(base, childCount)
    ensures && ix.annotationTypeIndex == base && ix.groupNameIndex == base + 1 && ix.groupValueIndex == base + 2
            && ix.versionNameIndex == base + 3 && ix.versionValueIndex == base + 4
            && ix.idNameIndex == base + 5 && ix.idValueIndex == base + 6
            && ix.sourceProjectIdNameIndex == base + 7 && ix.sourceProjectIdValueIndex == base + 8
            && ix.childIdsNameIndex == base + 9
  {
    var s := ix.Slots();
    assert s[0] == base && s[1] == base + 1 && s[2] == base + 2 && s[3] == base + 3;
    assert s[4] == base + 4 && s[5] == base + 5 && s[6] == base + 6 && s[7] == base + 7;
    assert s[8] == base + 8 && s[9] == base + 9;
  }

  /** The k-th child index names the k-th child id. */
  lemma ChildIndicesMatch(info: ClassportInfo, ix: CPIndices, base: int)
    requires ix.Consecutive(base, |info.childIds|)
    ensures forall k :: 0 <= k < |info.childIds| ==>
              EntryAt(info, base, ix.childIdsValueIndices[k]) == Some(Utf8(info.childIds[k]))
  {
    var s := ix.Slots();
    forall k | 0 <= k < |info.childIds|
      ensures EntryAt(info, base, ix.childIdsValueIndices[k]) == Some(Utf8(info.childIds[k]))
    {
      assert s[10 + k] == ix.childIdsValueIndices[k];
      NewEntryAt(info, 10 + k);
    }
  }

  /** The indices after the children: artefact and isDirectDependency. */
  lemma TailIndicesMatch(info: ClassportInfo, ix: CPIndices, base: int)
    requires ix.Consecutive(base, |info.childIds|)
    ensures EntryAt(info, base, ix.artefactNameIndex) == Some(Utf8("artefact"))
    ensures EntryAt(info, base, ix.artefactValueIndex) == Some(Utf8(info.artefact))
    ensures EntryAt(info, base, ix.isDirectDependencyNameIndex) == Some(Utf8("isDirectDependency"))
    ensures EntryAt(info, base, ix.isDirectDependencyValueIndex)
              == Some(Integer(if info.isDirectDependency then 1 else 0))
  {
    var n := |info.childIds|;
    TailSlots(ix, base, n);
    NewEntryAt(info, 10 + n);
    NewEntryAt(info, 11 + n);
    NewEntryAt(info, 12 + n);
    NewEntryAt(info, 13 + n);
  }

  /** Consecutive indices after the children, field by field. */
  lemma TailSlots(ix: CPIndices, base: int, childCount: nat)
    requires ix.Consecutive(base, childCount)
    ensures && ix.artefactNameIndex == base + 10 + childCount && ix.artefactValueIndex == base + 11 + childCount
            && ix.isDirectDependencyNameIndex == base + 12 + childCount
            && ix.isDirectDependencyValueIndex == base + 13 + childCount
  {
    var n := childCount;
    var s := ix.Slots();
    assert s[10 + n] == base + 10 + n && s[11 + n] == base + 11 + n;
    assert s[12 + n] == base + 12 + n && s[13 + n] == base + 13 + n;
  }
}
