/** The ClassportInfo annotation the injector writes (writeAnnotation,
    writeStringElementValue), the indices it refers to (the CPIndices
    constructor), and the two ways it enters a RuntimeVisibleAnnotations
    attribute (mergeAnnotation, createRuntimeVisibleAnnotations). */
module InjectedAnnotation {
  import opened Wrappers
  import opened Bytes
  import opened Buffers
  import opened Records
  import opened Annotations
  import opened AnnotationEntries
  import ClassFile

  /** The element names, in the order writeAnnotation writes the pairs. */
  const ELEMENT_NAMES: seq<string> :=
    ["group", "version", "id", "sourceProjectId", "childIds", "artefact", "isDirectDependency"]

  // ---------------------------------------------------------------------
  // CPIndices

  /** The indices CPIndices(baseCPCount, existingRvaIndex) assigns for a
      record with `childCount` child ids: one per new entry, counting up
      from the old constant_pool_count in the order getNewEntries writes
      them; the annotations attribute name is the existing Utf8 entry when
      one was found (a positive index), else the slot right after the new
      entries, where the injector appends it. */
  function Indices(base: int, childCount: nat, existingRva: int): (ix: CPIndices)
    ensures ix.Consecutive(base, childCount)
    ensures existingRva > 0 ==> ix.rvaNameIndex == existingRva
    ensures existingRva <= 0 ==> ix.rvaNameIndex == base + 14 + childCount
  {
    var n := childCount;
    var ix := CPIndices(
      base, base + 1, base + 2, base + 3, base + 4, base + 5, base + 6, base + 7, base + 8, base + 9,
      seq(n, k requires 0 <= k < n => base + 10 + k),
      base + 10 + n, base + 11 + n, base + 12 + n, base + 13 + n,
      if existingRva > 0 then existingRva else base + 14 + n);
    assert forall j :: 0 <= j < |ix.Slots()| ==> ix.Slots()[j] == base + j by {
      forall j | 0 <= j < |ix.Slots()| ensures ix.Slots()[j] == base + j {
        if 10 <= j < 10 + n { assert ix.Slots()[j] == ix.childIdsValueIndices[j - 10]; }
      }
    }
    ix
  }

  /** When no annotations-attribute name existed, the appended name's index
      is the one after the last new entry: the old count plus the number of
      new entries. */
  lemma AppendedNameFollowsEntries(info: ClassportInfo, base: int)
    ensures Indices(base, |info.childIds|, -1).rvaNameIndex == base + |NewEntries(info)|
    ensures EntryAt(info, base, Indices(base, |info.childIds|, -1).rvaNameIndex).None?
  {
  }

  // ---------------------------------------------------------------------
  // The annotation value

  /** An element whose value is a String constant ('s'). */
  function StringPair(nameIndex: int, valueIndex: int): ElementValuePair
  {
    ElementValuePair(nameIndex, ConstValue(TAG_STRING, valueIndex))
  }

  /** The childIds array: one String constant per index, in order. */
  function ChildIdValues(indices: seq<int>): (vs: seq<ElementValue>)
    ensures |vs| == |indices|
    ensures forall k :: 0 <= k < |indices| ==> vs[k] == ConstValue(TAG_STRING, indices[k])
  {
    seq(|indices|, k requires 0 <= k < |indices| => ConstValue(TAG_STRING, indices[k]))
  }

  /** The annotation writeAnnotation writes: the descriptor index, then the
      seven elements in ELEMENT_NAMES order; childIds is an array ('[') of
      strings and isDirectDependency a boolean ('Z'). */
  function ClassportAnnotation(ix: CPIndices): (a: Annotation)
    ensures |a.pairs| == |ELEMENT_NAMES|
  {
    Annotation(ix.annotationTypeIndex, [
      StringPair(ix.groupNameIndex, ix.groupValueIndex),
      StringPair(ix.versionNameIndex, ix.versionValueIndex),
      StringPair(ix.idNameIndex, ix.idValueIndex),
      StringPair(ix.sourceProjectIdNameIndex, ix.sourceProjectIdValueIndex),
      ElementValuePair(ix.childIdsNameIndex, ArrayValue(ChildIdValues(ix.childIdsValueIndices))),
      StringPair(ix.artefactNameIndex, ix.artefactValueIndex),
      ElementValuePair(ix.isDirectDependencyNameIndex, ConstValue(TAG_BOOLEAN, ix.isDirectDependencyValueIndex))])
  }

  lemma {:induction false} ChildIdValuesSize(indices: seq<int>)
    ensures |EncodeValues(ChildIdValues(indices))| == 3 * |indices|
    decreases indices
  {
    if indices != [] {
      ChildIdValuesSize(indices[1..]);
      assert ChildIdValues(indices)[1..] == ChildIdValues(indices[1..]);
    }
  }

  /** The pairs from `i` on: pair `i`, then the rest. */
  lemma EncodePairsFrom(ps: seq<ElementValuePair>, i: nat)
    requires i < |ps|
    ensures EncodePairs(ps[i..]) == EncodePair(ps[i]) + EncodePairs(ps[i + 1..])
    ensures ValidPair(ps[i]) && ValidPairs(ps[i + 1..]) ==> ValidPairs(ps[i..])
  {
    assert ps[i..][1..] == ps[i + 1..];
  }

  /** The annotation takes 39 + 3·|childIds| bytes: u2 type and count, six
      five-byte elements, and the array element's five-byte head plus three
      bytes per child. */
  lemma ClassportAnnotationSize(ix: CPIndices)
    ensures |EncodeAnnotation(ClassportAnnotation(ix))| == 39 + 3 * |ix.childIdsValueIndices|
  {
    var ps := ClassportAnnotation(ix).pairs;
    var n := |ix.childIdsValueIndices|;
    ChildIdValuesSize(ix.childIdsValueIndices);
    assert |EncodePairs(ps[6..])| == 5 by {
      EncodePairsFrom(ps, 6);
      assert ps[7..] == [];
    }
    assert |EncodePairs(ps[5..])| == 10 by { EncodePairsFrom(ps, 5); }
    assert |EncodePairs(ps[4..])| == 15 + 3 * n by {
      EncodePairsFrom(ps, 4);
      var vs := ChildIdValues(ix.childIdsValueIndices);
      assert ps[4] == ElementValuePair(ix.childIdsNameIndex, ArrayValue(vs));
      assert EncodePair(ps[4]) == U2(ix.childIdsNameIndex) + ([TAG_ARRAY] + U2(|vs|) + EncodeValues(vs));
    }
    assert |EncodePairs(ps[3..])| == 20 + 3 * n by { EncodePairsFrom(ps, 3); }
    assert |EncodePairs(ps[2..])| == 25 + 3 * n by { EncodePairsFrom(ps, 2); }
    assert |EncodePairs(ps[1..])| == 30 + 3 * n by { EncodePairsFrom(ps, 1); }
    assert |EncodePairs(ps)| == 35 + 3 * n by {
      EncodePairsFrom(ps, 0);
      assert ps[0..] == ps;
    }
  }

  /** Every index fits a u2, and so does the number of children. */
  predicate IndicesFit(ix: CPIndices)
  {
    && (forall j :: 0 <= j < |ix.Slots()| ==> IsU2(ix.Slots()[j]))
    && IsU2(|ix.childIdsValueIndices|)
  }

  lemma {:induction false} ChildIdValuesValid(indices: seq<int>)
    requires forall k :: 0 <= k < |indices| ==> IsU2(indices[k])
    ensures ValidValues(ChildIdValues(indices))
    decreases indices
  {
    if indices != [] {
      assert ChildIdValues(indices)[1..] == ChildIdValues(indices[1..]);
      ChildIdValuesValid(indices[1..]);
    }
  }

  /** With indices that fit, the annotation is one the encoding represents,
      so it reads back (Annotations.EncodeParseAnnotation). */
  lemma ClassportAnnotationValid(ix: CPIndices)
    requires IndicesFit(ix)
    ensures ValidAnnotation(ClassportAnnotation(ix))
  {
    var s := ix.Slots();
    var n := |ix.childIdsValueIndices|;
    assert s[0] == ix.annotationTypeIndex && s[1] == ix.groupNameIndex && s[2] == ix.groupValueIndex;
    assert s[3] == ix.versionNameIndex && s[4] == ix.versionValueIndex && s[5] == ix.idNameIndex;
    assert s[6] == ix.idValueIndex && s[7] == ix.sourceProjectIdNameIndex;
    assert s[8] == ix.sourceProjectIdValueIndex && s[9] == ix.childIdsNameIndex;
    assert s[10 + n] == ix.artefactNameIndex && s[11 + n] == ix.artefactValueIndex;
    assert s[12 + n] == ix.isDirectDependencyNameIndex && s[13 + n] == ix.isDirectDependencyValueIndex;
    assert forall k :: 0 <= k < n ==> s[10 + k] == ix.childIdsValueIndices[k];
    ChildIdValuesValid(ix.childIdsValueIndices);
    var ps := ClassportAnnotation(ix).pairs;
    assert forall k :: 0 <= k < 7 ==> ValidPair(ps[k]);
    assert ValidPairs(ps[6..]) by {
      EncodePairsFrom(ps, 6);
      assert ps[7..] == [];
    }
    assert ValidPairs(ps[5..]) by { EncodePairsFrom(ps, 5); }
    assert ValidPairs(ps[4..]) by { EncodePairsFrom(ps, 4); }
    assert ValidPairs(ps[3..]) by { EncodePairsFrom(ps, 3); }
    assert ValidPairs(ps[2..]) by { EncodePairsFrom(ps, 2); }
    assert ValidPairs(ps[1..]) by { EncodePairsFrom(ps, 1); }
  }

  /** Indices counted up from a pool count that leaves room for the new
      entries fit. */
  lemma ConsecutiveIndicesFit(ix: CPIndices, base: int, childCount: nat)
    requires ix.Consecutive(base, childCount) && 0 <= base && base + 14 + childCount <= TWO_16
    ensures IndicesFit(ix)
  {
  }

  /** What the annotation says, read through the new constant-pool entries:
      its type is the ClassportInfo descriptor, each element's name index
      names that element, and each value index names the record's value for
      it (the k-th child index the k-th child id, the boolean the 1-or-0
      Integer entry). */
  lemma ClassportAnnotationDescribesRecord(info: ClassportInfo, base: int)
    ensures var ix := Indices(base, |info.childIds|, -1);
      var a := ClassportAnnotation(ix);
      && EntryAt(info, base, a.typeIndex) == Some(Utf8(DESCRIPTOR))
      && (forall k :: 0 <= k < 7 ==> EntryAt(info, base, a.pairs[k].nameIndex) == Some(Utf8(ELEMENT_NAMES[k])))
      && EntryAt(info, base, a.pairs[0].value.index) == Some(Utf8(info.group))
      && EntryAt(info, base, a.pairs[1].value.index) == Some(Utf8(info.version))
      && EntryAt(info, base, a.pairs[2].value.index) == Some(Utf8(info.id))
      && EntryAt(info, base, a.pairs[3].value.index) == Some(Utf8(info.sourceProjectId))
      && |a.pairs[4].value.values| == |info.childIds|
      && (forall k :: 0 <= k < |info.childIds| ==>
            a.pairs[4].value.values[k].ConstValue?
            && a.pairs[4].value.values[k].tag == TAG_STRING
            && EntryAt(info, base, a.pairs[4].value.values[k].index) == Some(Utf8(info.childIds[k])))
      && EntryAt(info, base, a.pairs[5].value.index) == Some(Utf8(info.artefact))
      && EntryAt(info, base, a.pairs[6].value.index)
         == Some(Integer(if info.isDirectDependency then 1 else 0))
  {
    var ix := Indices(base, |info.childIds|, -1);
    ClassportAnnotationNames(info, base, ix);
    ClassportAnnotationValues(info, base, ix);
  }

  /** The type and element names of ClassportAnnotationDescribesRecord. */
  lemma ClassportAnnotationNames(info: ClassportInfo, base: int, ix: CPIndices)
    requires ix.Consecutive(base, |info.childIds|)
    ensures var a := ClassportAnnotation(ix);
      && EntryAt(info, base, a.typeIndex) == Some(Utf8(DESCRIPTOR))
      && (forall k :: 0 <= k < 7 ==> EntryAt(info, base, a.pairs[k].nameIndex) == Some(Utf8(ELEMENT_NAMES[k])))
  {
    HeadNames(info, base, ix);
    TailNames(info, base, ix);
  }

  /** The type and the names of the elements before artefact. */
  lemma HeadNames(info: ClassportInfo, base: int, ix: CPIndices)
    requires ix.Consecutive(base, |info.childIds|)
    ensures var a := ClassportAnnotation(ix);
      && EntryAt(info, base, a.typeIndex) == Some(Utf8(DESCRIPTOR))
      && (forall k :: 0 <= k < 5 ==> EntryAt(info, base, a.pairs[k].nameIndex) == Some(Utf8(ELEMENT_NAMES[k])))
  {
    HeadIndicesMatch(info, ix, base);
    var a := ClassportAnnotation(ix);
    assert a.pairs[0].nameIndex == ix.groupNameIndex && a.pairs[1].nameIndex == ix.versionNameIndex;
    assert a.pairs[2].nameIndex == ix.idNameIndex && a.pairs[3].nameIndex == ix.sourceProjectIdNameIndex;
    assert a.pairs[4].nameIndex == ix.childIdsNameIndex;
  }

  /** The names of artefact and isDirectDependency. */
  lemma TailNames(info: ClassportInfo, base: int, ix: CPIndices)
    requires ix.Consecutive(base, |info.childIds|)
    ensures var a := ClassportAnnotation(ix);
      forall k :: 5 <= k < 7 ==> EntryAt(info, base, a.pairs[k].nameIndex) == Some(Utf8(ELEMENT_NAMES[k]))
  {
    TailIndicesMatch(info, ix, base);
    var a := ClassportAnnotation(ix);
    assert a.pairs[5].nameIndex == ix.artefactNameIndex && a.pairs[6].nameIndex == ix.isDirectDependencyNameIndex;
  }

  /** The values of ClassportAnnotationDescribesRecord. */
  lemma ClassportAnnotationValues(info: ClassportInfo, base: int, ix: CPIndices)
    requires ix.Consecutive(base, |info.childIds|)
    ensures var a := ClassportAnnotation(ix);
      && EntryAt(info, base, a.pairs[0].value.index) == Some(Utf8(info.group))
      && EntryAt(info, base, a.pairs[1].value.index) == Some(Utf8(info.version))
      && EntryAt(info, base, a.pairs[2].value.index) == Some(Utf8(info.id))
      && EntryAt(info, base, a.pairs[3].value.index) == Some(Utf8(info.sourceProjectId))
      && |a.pairs[4].value.values| == |info.childIds|
      && (forall k :: 0 <= k < |info.childIds| ==>
            a.pairs[4].value.values[k].ConstValue?
            && a.pairs[4].value.values[k].tag == TAG_STRING
            && EntryAt(info, base, a.pairs[4].value.values[k].index) == Some(Utf8(info.childIds[k])))
      && EntryAt(info, base, a.pairs[5].value.index) == Some(Utf8(info.artefact))
      && EntryAt(info, base, a.pairs[6].value.index)
         == Some(Integer(if info.isDirectDependency then 1 else 0))
  {
    HeadValues(info, base, ix);
    ChildValues(info, base, ix);
    TailValues(info, base, ix);
  }

  /** The group, version, id and sourceProjectId values. */
  lemma HeadValues(info: ClassportInfo, base: int, ix: CPIndices)
    requires ix.Consecutive(base, |info.childIds|)
    ensures var a := ClassportAnnotation(ix);
      && EntryAt(info, base, a.pairs[0].value.index) == Some(Utf8(info.group))
      && EntryAt(info, base, a.pairs[1].value.index) == Some(Utf8(info.version))
      && EntryAt(info, base, a.pairs[2].value.index) == Some(Utf8(info.id))
      && EntryAt(info, base, a.pairs[3].value.index) == Some(Utf8(info.sourceProjectId))
  {
    HeadIndicesMatch(info, ix, base);
  }

  /** The childIds values, one String constant per child id. */
  lemma ChildValues(info: ClassportInfo, base: int, ix: CPIndices)
    requires ix.Consecutive(base, |info.childIds|)
    ensures var a := ClassportAnnotation(ix);
      && |a.pairs[4].value.values| == |info.childIds|
      && (forall k :: 0 <= k < |info.childIds| ==>
            a.pairs[4].value.values[k].ConstValue?
            && a.pairs[4].value.values[k].tag == TAG_STRING
            && EntryAt(info, base, a.pairs[4].value.values[k].index) == Some(Utf8(info.childIds[k])))
  {
    ChildIndicesMatch(info, ix, base);
  }

  /** The artefact and isDirectDependency values. */
  lemma TailValues(info: ClassportInfo, base: int, ix: CPIndices)
    requires ix.Consecutive(base, |info.childIds|)
    ensures var a := ClassportAnnotation(ix);
      && EntryAt(info, base, a.pairs[5].value.index) == Some(Utf8(info.artefact))
      && EntryAt(info, base, a.pairs[6].value.index)
         == Some(Integer(if info.isDirectDependency then 1 else 0))
  {
    TailIndicesMatch(info, ix, base);
  }

  // ---------------------------------------------------------------------
  // The attribute bodies

  /** mergeAnnotation(existingRVA, indices): num_annotations read from the
      existing body and written back plus one (as a u2, so 65535 wraps to 0),
      the existing annotation bytes, then the new annotation. A body shorter
      than its count field fails getShort. */
  function MergedBody(existing: seq<byte>, a: Annotation): Option<seq<byte>>
  {
    if |existing| < 2 then None
    else Some(U2(U2At(existing, 0) + 1) + existing[2..] + EncodeAnnotation(a))
  }

  /** Merging keeps the existing annotations' bytes in place and, when the
      existing body is well formed and has room in its count, reads back as
      the existing annotations followed by the new one. */
  lemma MergedBodyAppends(existing: seq<byte>, a: Annotation)
    requires |existing| >= 2
    ensures var m := MergedBody(existing, a).value;
      && |m| == |existing| + |EncodeAnnotation(a)|
      && m[2..|existing|] == existing[2..]
      && m[|existing|..] == EncodeAnnotation(a)
    ensures ParseBody(existing).Some? && ValidAnnotation(a) && U2At(existing, 0) + 1 < TWO_16 ==>
              ParseBody(MergedBody(existing, a).value) == Some(ParseBody(existing).value + [a])
  {
    if ParseBody(existing).Some? && ValidAnnotation(a) && U2At(existing, 0) + 1 < TWO_16 {
      AppendToBody(existing, a);
    }
  }

  /** createRuntimeVisibleAnnotations(indices): num_annotations = 1, then
      the annotation. */
  function CreatedBody(a: Annotation): seq<byte>
  {
    U2(1) + EncodeAnnotation(a)
  }

  /** The created body is the body holding just the new annotation, and
      reads back as such. */
  lemma CreatedBodyHoldsOne(a: Annotation)
    ensures CreatedBody(a) == EncodeBody([a])
    ensures ValidAnnotation(a) ==> ParseBody(CreatedBody(a)) == Some([a])
  {
    assert EncodeAnnotations([a]) == EncodeAnnotation(a) + EncodeAnnotations([]);
    if ValidAnnotation(a) {
      BodyRoundTrip([a]);
    }
  }

  // ---------------------------------------------------------------------
  // The class attribute table injectAnnotation writes

  /** The attributes after merging into attribute `rvaIndex`: its data
      replaced by the merged body, its name and every other attribute as
      they were. A table with no attribute `rvaIndex` is unchanged. */
  function MergeInto(attrs: seq<ClassFile.Attribute>, rvaIndex: nat, a: Annotation)
    : (r: Option<seq<ClassFile.Attribute>>)
    ensures r.Some? ==> |r.value| == |attrs|
  {
    if rvaIndex < |attrs| then
      var merged :- MergedBody(attrs[rvaIndex].info, a);
      Some(attrs[rvaIndex := ClassFile.Attribute(attrs[rvaIndex].nameIndex, merged)])
    else Some(attrs)
  }

  /** The table after injection. When attribute `rvaIndex` is the annotations
      attribute, the count is unchanged and only that attribute's data is
      replaced by the merged body; otherwise (`rvaIndex` is -1) the count
      grows by one and a new annotations attribute, named by `rvaNameIndex`,
      comes last. */
  function NewAttributeTable(attrs: seq<ClassFile.Attribute>, rvaIndex: int, a: Annotation, rvaNameIndex: int)
    : Option<seq<byte>>
    requires rvaIndex < |attrs|
  {
    if rvaIndex >= 0 then
      var merged :- MergeInto(attrs, rvaIndex, a);
      Some(U2(|attrs|) + ClassFile.EncodeAttributes(merged))
    else
      Some(U2(|attrs| + 1) + ClassFile.EncodeAttributes(attrs + [ClassFile.Attribute(rvaNameIndex, CreatedBody(a))]))
  }

  /** Merging fails exactly when the target's body has no count to read. */
  lemma MergeIntoFails(attrs: seq<ClassFile.Attribute>, rvaIndex: nat, a: Annotation)
    requires rvaIndex < |attrs|
    ensures MergeInto(attrs, rvaIndex, a).None? <==> |attrs[rvaIndex].info| < 2
  {
  }

  /** The merged table reads back (when everything fits the encoding): the
      same count, every attribute but the target unchanged, the target under
      its old name with a body that parses as its old annotations followed
      by the new one. */
  lemma MergedTableReadsBack(attrs: seq<ClassFile.Attribute>, rvaIndex: nat, a: Annotation, rvaNameIndex: int)
    requires rvaIndex < |attrs| < TWO_16 && ClassFile.ValidAttributes(attrs) && ValidAnnotation(a)
    requires ParseBody(attrs[rvaIndex].info).Some? && U2At(attrs[rvaIndex].info, 0) + 1 < TWO_16
    requires |attrs[rvaIndex].info| + |EncodeAnnotation(a)| < 0x8000_0000
    ensures NewAttributeTable(attrs, rvaIndex, a, rvaNameIndex).Some?
    ensures var t := NewAttributeTable(attrs, rvaIndex, a, rvaNameIndex).value;
      var m := MergeInto(attrs, rvaIndex, a).value;
      && U2At(t, 0) == |attrs|
      && ClassFile.ParseAttributes(t, 2, |attrs|) == Some((m, |t|))
      && (forall k :: 0 <= k < |attrs| && k != rvaIndex ==> m[k] == attrs[k])
      && m[rvaIndex].nameIndex == attrs[rvaIndex].nameIndex
      && ParseBody(m[rvaIndex].info) == Some(ParseBody(attrs[rvaIndex].info).value + [a])
  {
    var existing := attrs[rvaIndex].info;
    MergedBodyAppends(existing, a);
    var m := MergeInto(attrs, rvaIndex, a).value;
    var t := NewAttributeTable(attrs, rvaIndex, a, rvaNameIndex).value;
    assert ClassFile.ValidAttributes(m) by {
      forall k | 0 <= k < |m| ensures ClassFile.ValidAttribute(m[k]) {
        if k != rvaIndex { assert m[k] == attrs[k]; }
      }
    }
    assert t[2..] == ClassFile.EncodeAttributes(m);
    ClassFile.EncodeParseAttributes(t, 2, m, |t|);
    U2RoundTrip(|attrs|);
    assert U2At(t, 0) == U2At(U2(|attrs|), 0);
  }

  /** The extended table reads back (when everything fits the encoding):
      one more attribute, the old ones unchanged and in place, the new one
      last, named by `rvaNameIndex`, holding just the new annotation. */
  lemma CreatedTableReadsBack(attrs: seq<ClassFile.Attribute>, a: Annotation, rvaNameIndex: int)
    requires |attrs| + 1 < TWO_16 && ClassFile.ValidAttributes(attrs) && ValidAnnotation(a)
    requires 0 <= rvaNameIndex < TWO_16 && 2 + |EncodeAnnotation(a)| < 0x8000_0000
    ensures var t := NewAttributeTable(attrs, -1, a, rvaNameIndex).value;
      var m := attrs + [ClassFile.Attribute(rvaNameIndex, CreatedBody(a))];
      && U2At(t, 0) == |attrs| + 1
      && ClassFile.ParseAttributes(t, 2, |attrs| + 1) == Some((m, |t|))
      && ParseBody(m[|attrs|].info) == Some([a])
  {
    CreatedBodyHoldsOne(a);
    var m := attrs + [ClassFile.Attribute(rvaNameIndex, CreatedBody(a))];
    var t := NewAttributeTable(attrs, -1, a, rvaNameIndex).value;
    assert ClassFile.ValidAttributes(m) by {
      forall k | 0 <= k < |m| ensures ClassFile.ValidAttribute(m[k]) {
        if k < |attrs| { assert m[k] == attrs[k]; }
      }
    }
    assert t[2..] == ClassFile.EncodeAttributes(m);
    ClassFile.EncodeParseAttributes(t, 2, m, |t|);
    U2RoundTrip(|attrs| + 1);
    assert U2At(t, 0) == U2At(U2(|attrs| + 1), 0);
  }
}
