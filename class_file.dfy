/** The parts of a class file (JVMS 4.1) the injector copies after the
    constant pool: the class info and interfaces, the fields and methods
    (JVMS 4.5, 4.6) with their attributes (JVMS 4.7), and the class-level
    attribute table. Covers copyMembers and
    findRuntimeVisibleAnnotationsAttribute of AnnotationConstantPool. */
module ClassFile {
  import opened Wrappers
  import opened Bytes
  import opened Buffers
  import CP = ConstantPool
  import opened SeqFacts

  const RVA_NAME: string := "RuntimeVisibleAnnotations"

  lemma RvaNameIsAscii()
    ensures PlainAscii(RVA_NAME)
  {
  }

  /** The bytes getCPString's result must equal to name the annotations
      attribute, spelt out (RvaNameBytesAreAscii ties them to RVA_NAME). */
  function RvaNameBytes(): (r: seq<byte>)
    ensures |r| == 25
  {
    [82, 117, 110, 116, 105, 109, 101, 86, 105, 115, 105, 98, 108, 101,
     65, 110, 110, 111, 116, 97, 116, 105, 111, 110, 115]
  }

  lemma RvaNameBytesAreAscii()
    ensures PlainAscii(RVA_NAME) && RvaNameBytes() == Ascii(RVA_NAME)
  {
    RvaNameIsAscii();
    var a := Ascii(RVA_NAME);
    forall k | 0 <= k < 25 ensures a[k] == RvaNameBytes()[k] {
      assert a[k] == RVA_NAME[k] as int;
    }
  }

  // ---------------------------------------------------------------------
  // Reading

  /** access_flags, this_class, super_class, then interfaces_count and the
      interface indices: where they end, when they fit. */
  function ClassInfoEnd(b: seq<byte>, pos: nat): (r: Option<nat>)
    ensures r.Some? ==> pos + 8 <= r.value <= |b|
  {
    if pos + 8 > |b| then None
    else
      var n := U2At(b, pos + 6);
      if pos + 8 + 2 * n > |b| then None else Some(pos + 8 + 2 * n)
  }

  /** One attribute as it is read: attribute_name_index, then attribute_length
      read as a signed int; a negative length fails `new byte[len]`. */
  function AttributeEnd(b: seq<byte>, pos: nat): (r: Option<nat>)
    ensures r.Some? ==> pos + 6 <= r.value <= |b|
  {
    if pos + 6 > |b| then None
    else
      var len := S4At(b, pos + 2);
      if len < 0 || pos + 6 + len > |b| then None else Some(pos + 6 + len)
  }

  /** `count` attributes in a row. */
  function SkipAttributes(b: seq<byte>, pos: nat, count: nat): (r: Option<nat>)
    ensures r.Some? && count == 0 ==> r.value == pos
    ensures r.Some? && count > 0 ==> pos < r.value <= |b|
    decreases count
  {
    if count == 0 then Some(pos)
    else
      var next :- AttributeEnd(b, pos);
      SkipAttributes(b, next, count - 1)
  }

  /** One field_info or method_info: three u2s, attributes_count, attributes. */
  function MemberEnd(b: seq<byte>, pos: nat): (r: Option<nat>)
    ensures r.Some? ==> pos + 8 <= r.value <= |b|
  {
    if pos + 8 > |b| then None
    else SkipAttributes(b, pos + 8, U2At(b, pos + 6))
  }

  function SkipMemberList(b: seq<byte>, pos: nat, count: nat): (r: Option<nat>)
    ensures r.Some? && count == 0 ==> r.value == pos
    ensures r.Some? && count > 0 ==> pos < r.value <= |b|
    decreases count
  {
    if count == 0 then Some(pos)
    else
      var next :- MemberEnd(b, pos);
      SkipMemberList(b, next, count - 1)
  }

  /** One attribute, then the rest of the run. */
  lemma SkipAttributesStep(b: seq<byte>, pos: nat, count: nat)
    requires count > 0
    ensures AttributeEnd(b, pos).None? ==> SkipAttributes(b, pos, count).None?
    ensures AttributeEnd(b, pos).Some? ==>
              SkipAttributes(b, pos, count) == SkipAttributes(b, AttributeEnd(b, pos).value, count - 1)
  {
  }

  /** One member, then the rest of the list. */
  lemma SkipMemberListStep(b: seq<byte>, pos: nat, count: nat, ok: bool, next: nat)
    requires count > 0
    requires ok <==> MemberEnd(b, pos).Some?
    requires ok ==> next == MemberEnd(b, pos).value
    ensures !ok ==> SkipMemberList(b, pos, count).None?
    ensures ok ==> SkipMemberList(b, pos, count) == SkipMemberList(b, next, count - 1)
  {
  }

  /** A fields or methods table: its u2 count, then the members. */
  function SkipMembers(b: seq<byte>, pos: nat): (r: Option<nat>)
    ensures r.Some? ==> pos + 2 <= r.value <= |b|
  {
    if pos + 2 > |b| then None
    else SkipMemberList(b, pos + 2, U2At(b, pos))
  }

  // ---------------------------------------------------------------------
  // The class attribute table as values

  datatype Attribute = Attribute(nameIndex: int, info: seq<byte>)

  /** attribute_name_index, attribute_length, info (writeShort, writeInt, write). */
  function EncodeAttribute(a: Attribute): seq<byte>
  {
    U2(a.nameIndex) + U4(|a.info|) + a.info
  }

  function EncodeAttributes(attrs: seq<Attribute>): seq<byte>
  {
    if attrs == [] then [] else EncodeAttribute(attrs[0]) + EncodeAttributes(attrs[1..])
  }

  /** An attribute table holds what the encoding represents: u2 name
      indices and lengths below 2^31, the largest a Java array can have. */
  predicate ValidAttribute(a: Attribute)
  {
    0 <= a.nameIndex < TWO_16 && |a.info| < 0x8000_0000
  }

  predicate ValidAttributes(attrs: seq<Attribute>)
  {
    forall k :: 0 <= k < |attrs| ==> ValidAttribute(attrs[k])
  }

  function ParseAttributes(b: seq<byte>, pos: nat, count: nat): (r: Option<(seq<Attribute>, nat)>)
    ensures r.Some? ==> |r.value.0| == count
    ensures r.Some? && count == 0 ==> r.value.1 == pos
    ensures r.Some? && count > 0 ==> pos < r.value.1 <= |b|
    decreases count
  {
    if count == 0 then Some(([], pos))
    else
      var next :- AttributeEnd(b, pos);
      var rest :- ParseAttributes(b, next, count - 1);
      Some(([Attribute(U2At(b, pos), b[pos + 6..next])] + rest.0, rest.1))
  }

  /** Reading the table as values and skipping over it agree. */
  lemma {:induction false} ParseAttributesSkips(b: seq<byte>, pos: nat, count: nat)
    ensures ParseAttributes(b, pos, count).Some? <==> SkipAttributes(b, pos, count).Some?
    ensures ParseAttributes(b, pos, count).Some? ==>
              ParseAttributes(b, pos, count).value.1 == SkipAttributes(b, pos, count).value
    decreases count
  {
    if count > 0 && AttributeEnd(b, pos).Some? {
      ParseAttributesSkips(b, AttributeEnd(b, pos).value, count - 1);
    }
  }

  lemma AttributeEncodes(b: seq<byte>, pos: nat)
    requires AttributeEnd(b, pos).Some?
    ensures var next := AttributeEnd(b, pos).value;
      var a := Attribute(U2At(b, pos), b[pos + 6..next]);
      ValidAttribute(a) && b[pos..next] == EncodeAttribute(a)
  {
    var next := AttributeEnd(b, pos).value;
    U2Of(b, pos);
    U4Of(b, pos + 2);
    assert S4At(b, pos + 2) == next - pos - 6;
    assert b[pos..next] == b[pos..pos + 2] + b[pos + 2..pos + 6] + b[pos + 6..next];
  }

  /** Whatever the table parses to is valid and is exactly the bytes read. */
  lemma {:induction false} ParseAttributesEncodes(b: seq<byte>, pos: nat, count: nat)
    requires pos <= |b| && ParseAttributes(b, pos, count).Some?
    ensures var r := ParseAttributes(b, pos, count).value;
      ValidAttributes(r.0) && pos <= r.1 && b[pos..r.1] == EncodeAttributes(r.0)
    decreases count
  {
    if count > 0 {
      var next := AttributeEnd(b, pos).value;
      var rest := ParseAttributes(b, next, count - 1).value;
      AttributeEncodes(b, pos);
      ParseAttributesEncodes(b, next, count - 1);
      var a := Attribute(U2At(b, pos), b[pos + 6..next]);
      var attrs := [a] + rest.0;
      ValidCons(a, rest.0);
      assert attrs[0] == a && attrs[1..] == rest.0;
      assert EncodeAttributes(attrs) == EncodeAttribute(a) + EncodeAttributes(rest.0);
      JoinSlices(b, pos, next, rest.1);
    }
  }

  /** One valid attribute reads back, wherever its encoding sits. */
  lemma AttributeReadsBack(b: seq<byte>, pos: nat, a: Attribute)
    requires ValidAttribute(a)
    requires pos + |EncodeAttribute(a)| <= |b| && b[pos..pos + |EncodeAttribute(a)|] == EncodeAttribute(a)
    ensures AttributeEnd(b, pos) == Some(pos + |EncodeAttribute(a)|)
    ensures U2At(b, pos) == a.nameIndex && b[pos + 6..pos + |EncodeAttribute(a)|] == a.info
  {
    SplitSlice(b, pos, U2(a.nameIndex) + U4(|a.info|), a.info);
    SplitSlice(b, pos, U2(a.nameIndex), U4(|a.info|));
    U2RoundTrip(a.nameIndex);
    U4RoundTrip(|a.info|);
    assert U2At(b, pos) == U2At(U2(a.nameIndex), 0);
    assert U4At(b, pos + 2) == U4At(U4(|a.info|), 0);
  }

  /** One attribute in front of a table that parses. */
  lemma ParseAttributesCons(b: seq<byte>, pos: nat, count: nat, next: nat, rest: seq<Attribute>, end: nat)
    requires count > 0 && AttributeEnd(b, pos) == Some(next)
    requires ParseAttributes(b, next, count - 1) == Some((rest, end))
    ensures ParseAttributes(b, pos, count) == Some(([Attribute(U2At(b, pos), b[pos + 6..next])] + rest, end))
  {
  }

  lemma ValidCons(a: Attribute, rest: seq<Attribute>)
    requires ValidAttribute(a) && ValidAttributes(rest)
    ensures ValidAttributes([a] + rest)
  {
    forall k | 0 <= k < |rest| + 1 ensures ValidAttribute(([a] + rest)[k]) {
      if k > 0 { assert ([a] + rest)[k] == rest[k - 1]; }
    }
  }

  lemma ValidTail(attrs: seq<Attribute>)
    requires attrs != [] && ValidAttributes(attrs)
    ensures ValidAttribute(attrs[0]) && ValidAttributes(attrs[1..])
  {
    forall k | 0 <= k < |attrs| - 1 ensures ValidAttribute(attrs[1..][k]) { assert attrs[1..][k] == attrs[k + 1]; }
  }

  /** Every valid table reads back, wherever its encoding sits. */
  lemma {:induction false} EncodeParseAttributes(b: seq<byte>, pos: nat, attrs: seq<Attribute>, end: nat)
    requires ValidAttributes(attrs)
    requires end == pos + |EncodeAttributes(attrs)| <= |b| && b[pos..end] == EncodeAttributes(attrs)
    ensures ParseAttributes(b, pos, |attrs|) == Some((attrs, end))
    decreases attrs
  {
    if attrs != [] {
      var next := FirstAttributeReadsBack(b, pos, attrs, end);
      EncodeParseAttributes(b, next, attrs[1..], end);
      ParseAttributesConsOf(b, pos, attrs, next, end);
    }
  }

  /** A table read as its first attribute and then the rest. */
  lemma ParseAttributesConsOf(b: seq<byte>, pos: nat, attrs: seq<Attribute>, next: nat, end: nat)
    requires attrs != [] && AttributeEnd(b, pos) == Some(next)
    requires Attribute(U2At(b, pos), b[pos + 6..next]) == attrs[0]
    requires ParseAttributes(b, next, |attrs| - 1) == Some((attrs[1..], end))
    ensures ParseAttributes(b, pos, |attrs|) == Some((attrs, end))
  {
    AttributesCons(attrs, Attribute(U2At(b, pos), b[pos + 6..next]));
  }

  lemma AttributesCons(attrs: seq<Attribute>, first: Attribute)
    requires attrs != [] && first == attrs[0]
    ensures [first] + attrs[1..] == attrs
  {
  }

  /** The first attribute of a valid table's encoding reads back, and the
      rest of the encoding follows it. */
  lemma FirstAttributeReadsBack(b: seq<byte>, pos: nat, attrs: seq<Attribute>, end: nat) returns (next: nat)
    requires attrs != [] && ValidAttributes(attrs)
    requires end == pos + |EncodeAttributes(attrs)| <= |b| && b[pos..end] == EncodeAttributes(attrs)
    ensures AttributeEnd(b, pos) == Some(next)
    ensures Attribute(U2At(b, pos), b[pos + 6..next]) == attrs[0]
    ensures ValidAttributes(attrs[1..])
    ensures end == next + |EncodeAttributes(attrs[1..])| && b[next..end] == EncodeAttributes(attrs[1..])
  {
    var a, rest := attrs[0], attrs[1..];
    var enc := EncodeAttribute(a);
    next := pos + |enc|;
    assert EncodeAttributes(attrs) == enc + EncodeAttributes(rest);
    SplitSlice(b, pos, enc, EncodeAttributes(rest));
    ValidTail(attrs);
    AttributeReadsBack(b, pos, a);
  }

  lemma {:induction false} EncodeAttributesConcat(a: seq<Attribute>, c: seq<Attribute>)
    ensures EncodeAttributes(a + c) == EncodeAttributes(a) + EncodeAttributes(c)
    decreases a
  {
    if a == [] {
      assert a + c == c;
    } else {
      assert (a + c)[1..] == a[1..] + c;
      EncodeAttributesConcat(a[1..], c);
    }
  }

  // ---------------------------------------------------------------------
  // findRuntimeVisibleAnnotationsAttribute

  /** getCPString(nameIndex).equals(target), or None when the name does
      not resolve. The search below is written for any name test and is
      used with the test for RuntimeVisibleAnnotations (RvaNameBytes) only. */
  function IsRvaName(classBytes: seq<byte>, nameIndex: int, target: seq<byte>): Option<bool>
  {
    var name :- CP.CPString(classBytes, nameIndex);
    Some(name == target)
  }

  /** A name test: what getCPString(nameIndex).equals(...) answers for each
      name index, None when the name does not resolve. */
  type NameTest = int -> Option<bool>

  /** The test the search applies: comparison of the resolved name with `target`. */
  function NameIs(classBytes: seq<byte>, target: seq<byte>): NameTest
  {
    n => IsRvaName(classBytes, n, target)
  }

  /** The attribute walk of findRuntimeVisibleAnnotationsAttribute from the
      attribute at `pos`, which is attribute number `i`: the number of the
      first one whose name resolves (getCPString) to RuntimeVisibleAnnotations,
      -1 after `remaining` attributes. Its length is read as a signed int and
      added to the position without a check of its sign. */
  function FindRvaFrom(classBytes: seq<byte>, test: NameTest, pos: nat, remaining: nat, i: nat): (r: Option<int>)
    ensures r.Some? ==> r.value == -1 || i <= r.value < i + remaining
    decreases remaining
  {
    if remaining == 0 then Some(-1)
    else
      match RvaStep(classBytes, test, pos)
      case None => None
      case Some(None) => Some(i)
      case Some(Some(next)) => FindRvaFrom(classBytes, test, next, remaining - 1, i + 1)
  }

  /** One attribute of the search: None when a read fails, Some(None) when
      its name is RuntimeVisibleAnnotations, otherwise where the next
      attribute starts. */
  function RvaStep(classBytes: seq<byte>, test: NameTest, pos: nat): Option<Option<nat>>
  {
    if pos + 6 > |classBytes| then None
    else
      var isRva :- test(U2At(classBytes, pos));
      if isRva then Some(None)
      else
        var next := pos + 6 + S4At(classBytes, pos + 2);
        if next < 0 || next > |classBytes| then None
        else Some(Some(next))
  }

  /** What the search sees of a table: for each attribute, whether its name
      passes the test, or None when the name does not resolve. */
  function NameLookups(test: NameTest, attrs: seq<Attribute>): (r: seq<Option<bool>>)
    ensures |r| == |attrs|
    decreases attrs
  {
    if attrs == [] then []
    else [test(attrs[0].nameIndex)] + NameLookups(test, attrs[1..])
  }

  /** The same search over those lookups: the number (counting from `i`)
      of the first match, -1 when there is none, None when a lookup before
      the first match fails. */
  function FirstRva(lookups: seq<Option<bool>>, i: nat): Option<int>
    decreases lookups
  {
    if lookups == [] then Some(-1)
    else
      var isRva :- lookups[0];
      if isRva then Some(i) else FirstRva(lookups[1..], i + 1)
  }

  /** Where an attribute can be skipped, a search step is the name lookup. */
  lemma RvaStepOnTable(classBytes: seq<byte>, test: NameTest, pos: nat)
    requires AttributeEnd(classBytes, pos).Some?
    ensures var first := test(U2At(classBytes, pos));
      && (first.None? ==> RvaStep(classBytes, test, pos).None?)
      && (first == Some(true) ==> RvaStep(classBytes, test, pos) == Some(None))
      && (first == Some(false) ==> RvaStep(classBytes, test, pos) == Some(Some(AttributeEnd(classBytes, pos).value)))
  {
  }

  /** The search over lookups, one lookup at a time. */
  lemma FirstRvaCons(first: Option<bool>, tail: seq<Option<bool>>, i: nat)
    ensures first.None? ==> FirstRva([first] + tail, i).None?
    ensures first == Some(true) ==> FirstRva([first] + tail, i) == Some(i)
    ensures first == Some(false) ==> FirstRva([first] + tail, i) == FirstRva(tail, i + 1)
  {
    assert ([first] + tail)[0] == first && ([first] + tail)[1..] == tail;
  }

  /** On a table that parses, the byte walk is the search over its attributes. */
  lemma {:induction false} FindRvaWalksTable(classBytes: seq<byte>, test: NameTest, pos: nat, count: nat, i: nat)
    requires ParseAttributes(classBytes, pos, count).Some?
    ensures FindRvaFrom(classBytes, test, pos, count, i)
            == FirstRva(NameLookups(test, ParseAttributes(classBytes, pos, count).value.0), i)
    decreases count
  {
    if count > 0 {
      var next := AttributeEnd(classBytes, pos).value;
      var rest := ParseAttributes(classBytes, next, count - 1).value;
      ParseAttributesCons(classBytes, pos, count, next, rest.0, rest.1);
      var attrs := [Attribute(U2At(classBytes, pos), classBytes[pos + 6..next])] + rest.0;
      assert attrs[1..] == rest.0;
      var lookups := NameLookups(test, attrs);
      var first := test(U2At(classBytes, pos));
      var tail := NameLookups(test, rest.0);
      assert lookups == [first] + tail;
      FirstRvaCons(first, tail, i);
      RvaStepOnTable(classBytes, test, pos);
      FindRvaStep(classBytes, test, pos, count, i);
      if first == Some(false) {
        FindRvaWalksTable(classBytes, test, next, count - 1, i + 1);
      }
    }
  }

  /** The first n lookups all resolve to another name. */
  predicate OthersBefore(lookups: seq<Option<bool>>, n: nat)
    requires n <= |lookups|
  {
    forall k :: 0 <= k < n ==> lookups[k] == Some(false)
  }

  /** The search finds the first match, answers -1 exactly when every
      lookup resolves to another name, and fails exactly when the first
      lookup that is not another name fails. */
  lemma {:induction false} FirstRvaIsFirst(lookups: seq<Option<bool>>, i: nat)
    ensures var r := FirstRva(lookups, i);
      && (r.Some? ==> r.value == -1 || i <= r.value < i + |lookups|)
      && (r.Some? && r.value >= 0 ==> lookups[r.value - i] == Some(true) && OthersBefore(lookups, r.value - i))
      && (r == Some(-1) <==> OthersBefore(lookups, |lookups|))
      && (r.None? <==> exists k :: 0 <= k < |lookups| && OthersBefore(lookups, k) && lookups[k].None?)
    decreases lookups
  {
    FirstRvaFound(lookups, i);
    FirstRvaNotFound(lookups, i);
    FirstRvaFails(lookups, i);
  }

  lemma {:induction false} FirstRvaFound(lookups: seq<Option<bool>>, i: nat)
    ensures var r := FirstRva(lookups, i);
      r.Some? ==>
        r.value == -1
        || (i <= r.value < i + |lookups| && lookups[r.value - i] == Some(true) && OthersBefore(lookups, r.value - i))
    decreases lookups
  {
    if lookups != [] {
      var rest := lookups[1..];
      if lookups[0] == Some(false) {
        FirstRvaFound(rest, i + 1);
        var r := FirstRva(rest, i + 1);
        if r.Some? && r.value >= 0 {
          OthersBeforeCons(lookups, r.value - i);
          assert lookups[r.value - i] == rest[r.value - i - 1];
        }
      } else {
        assert OthersBefore(lookups, 0);
      }
    }
  }

  lemma {:induction false} FirstRvaNotFound(lookups: seq<Option<bool>>, i: nat)
    ensures FirstRva(lookups, i) == Some(-1) <==> OthersBefore(lookups, |lookups|)
    decreases lookups
  {
    if lookups != [] {
      OthersBeforeCons(lookups, |lookups|);
      if lookups[0] == Some(false) {
        FirstRvaNotFound(lookups[1..], i + 1);
      }
    }
  }

  lemma {:induction false} FirstRvaFails(lookups: seq<Option<bool>>, i: nat)
    ensures FirstRva(lookups, i).None? <==> exists k :: 0 <= k < |lookups| && OthersBefore(lookups, k) && lookups[k].None?
    decreases lookups
  {
    if lookups != [] {
      var rest := lookups[1..];
      if lookups[0] == Some(false) {
        FirstRvaFails(rest, i + 1);
        if FirstRva(rest, i + 1).None? {
          var k :| 0 <= k < |rest| && OthersBefore(rest, k) && rest[k].None?;
          OthersBeforeCons(lookups, k + 1);
          assert OthersBefore(lookups, k + 1) && lookups[k + 1].None?;
        }
        if exists k :: 0 <= k < |lookups| && OthersBefore(lookups, k) && lookups[k].None? {
          var k :| 0 <= k < |lookups| && OthersBefore(lookups, k) && lookups[k].None?;
          OthersBeforeCons(lookups, k);
          assert OthersBefore(rest, k - 1) && rest[k - 1].None?;
        }
      } else if lookups[0].None? {
        assert OthersBefore(lookups, 0);
      } else {
        assert forall k :: 0 < k <= |lookups| ==> !OthersBefore(lookups, k);
      }
    }
  }

  /** A prefix of other names is another name followed by such a prefix of the rest. */
  lemma OthersBeforeCons(lookups: seq<Option<bool>>, n: nat)
    requires 0 < n <= |lookups|
    ensures OthersBefore(lookups, n) <==> lookups[0] == Some(false) && OthersBefore(lookups[1..], n - 1)
  {
    if lookups[0] == Some(false) && OthersBefore(lookups[1..], n - 1) {
      forall k | 0 <= k < n ensures lookups[k] == Some(false) {
        if k > 0 { assert lookups[k] == lookups[1..][k - 1]; }
      }
    }
  }

  // ---------------------------------------------------------------------
  // copyMembers

  /** Copies one attribute: name, length and data, each read then written. */
  method CopyAttribute(buffer: Cursor, out: ByteSink) returns (r: Result<()>)
    requires buffer.Valid()
    modifies buffer`pos, out
    ensures buffer.Valid()
    ensures r.Ok? <==> AttributeEnd(buffer.data, old(buffer.pos)).Some?
    ensures r.Ok? ==> buffer.pos == AttributeEnd(buffer.data, old(buffer.pos)).value
                      && out.data == old(out.data) + buffer.data[old(buffer.pos)..buffer.pos]
  {
    ghost var p := buffer.pos;
    var name :- buffer.GetU2();
    out.WriteShort(name);
    var attrLen :- buffer.GetInt();
    out.WriteInt(attrLen);
    var attrData :- buffer.GetBytes(attrLen);
    out.Write(attrData);
    U2Of(buffer.data, p);
    U4Of(buffer.data, p + 2);
    AppendSlices(old(out.data), buffer.data, p, p + 2, p + 6);
    AppendSlices(old(out.data), buffer.data, p, p + 6, buffer.pos);
    r := Ok(());
  }

  /** The three u2s and attributes_count of one member, each read then
      written; returns attributes_count. */
  method CopyMemberHeader(buffer: Cursor, out: ByteSink) returns (r: Result<nat>)
    requires buffer.Valid()
    modifies buffer`pos, out
    ensures buffer.Valid()
    ensures r.Ok? <==> old(buffer.pos) + 8 <= |buffer.data|
    ensures r.Ok? ==> buffer.pos == old(buffer.pos) + 8 && r.value == U2At(buffer.data, old(buffer.pos) + 6)
                      && out.data == old(out.data) + buffer.data[old(buffer.pos)..buffer.pos]
  {
    ghost var p := buffer.pos;
    var accessFlags :- buffer.GetU2();
    out.WriteShort(accessFlags);
    var nameIndex :- buffer.GetU2();
    out.WriteShort(nameIndex);
    var descriptorIndex :- buffer.GetU2();
    out.WriteShort(descriptorIndex);
    var attrCount :- buffer.GetU2();
    out.WriteShort(attrCount);
    U2Of(buffer.data, p);
    U2Of(buffer.data, p + 2);
    U2Of(buffer.data, p + 4);
    U2Of(buffer.data, p + 6);
    AppendSlices(old(out.data), buffer.data, p, p + 2, p + 4);
    AppendSlices(old(out.data), buffer.data, p, p + 4, p + 6);
    AppendSlices(old(out.data), buffer.data, p, p + 6, p + 8);
    r := Ok(attrCount);
  }

  /** The inner loop of copyMembers: `count` attributes, each copied as read. */
  method CopyAttributes(buffer: Cursor, out: ByteSink, count: nat) returns (r: Result<()>)
    requires buffer.Valid()
    modifies buffer`pos, out
    ensures buffer.Valid()
    ensures r.Ok? <==> SkipAttributes(buffer.data, old(buffer.pos), count).Some?
    ensures r.Ok? ==> buffer.pos == SkipAttributes(buffer.data, old(buffer.pos), count).value
                      && out.data == old(out.data) + buffer.data[old(buffer.pos)..buffer.pos]
  {
    var start := buffer.pos;
    var j := 0;
    while j < count
      invariant buffer.Valid() && start <= buffer.pos && j <= count
      invariant SkipAttributes(buffer.data, start, count) == SkipAttributes(buffer.data, buffer.pos, count - j)
      invariant out.data == old(out.data) + buffer.data[start..buffer.pos]
    {
      ghost var q := buffer.pos;
      SkipAttributesStep(buffer.data, q, count - j);
      var _ :- CopyAttribute(buffer, out);
      AppendSlices(old(out.data), buffer.data, start, q, buffer.pos);
      j := j + 1;
    }
    r := Ok(());
  }

  /** One field_info or method_info of copyMembers: header, then attributes. */
  method CopyMember(buffer: Cursor, out: ByteSink) returns (r: Result<()>)
    requires buffer.Valid()
    modifies buffer`pos, out
    ensures buffer.Valid()
    ensures r.Ok? <==> MemberEnd(buffer.data, old(buffer.pos)).Some?
    ensures r.Ok? ==> buffer.pos == MemberEnd(buffer.data, old(buffer.pos)).value
                      && out.data == old(out.data) + buffer.data[old(buffer.pos)..buffer.pos]
  {
    var p := buffer.pos;
    var attrCount :- CopyMemberHeader(buffer, out);
    var _ :- CopyAttributes(buffer, out, attrCount);
    AppendSlices(old(out.data), buffer.data, p, p + 8, buffer.pos);
    r := Ok(());
  }

  /** The outer loop of copyMembers: `count` members, each copied as read. */
  method CopyMemberList(buffer: Cursor, out: ByteSink, count: nat) returns (r: Result<()>)
    requires buffer.Valid()
    modifies buffer`pos, out
    ensures buffer.Valid()
    ensures r.Ok? <==> SkipMemberList(buffer.data, old(buffer.pos), count).Some?
    ensures r.Ok? ==> buffer.pos == SkipMemberList(buffer.data, old(buffer.pos), count).value
                      && out.data == old(out.data) + buffer.data[old(buffer.pos)..buffer.pos]
  {
    var start := buffer.pos;
    var i := 0;
    while i < count
      invariant buffer.Valid() && start <= buffer.pos && i <= count
      invariant SkipMemberList(buffer.data, start, count) == SkipMemberList(buffer.data, buffer.pos, count - i)
      invariant out.data == old(out.data) + buffer.data[start..buffer.pos]
    {
      ghost var q := buffer.pos;
      var copied := CopyMember(buffer, out);
      SkipMemberListStep(buffer.data, q, count - i, copied.Ok?, buffer.pos);
      if copied.Err? {
        return Err(copied.error);
      }
      AppendSlices(old(out.data), buffer.data, start, q, buffer.pos);
      i := i + 1;
    }
    r := Ok(());
  }

  /** copyMembers(buffer, out): copies a fields or methods table as read. */
  method CopyMembers(buffer: Cursor, out: ByteSink) returns (r: Result<()>)
    requires buffer.Valid()
    modifies buffer`pos, out
    ensures buffer.Valid()
    ensures r.Ok? <==> SkipMembers(buffer.data, old(buffer.pos)).Some?
    ensures r.Ok? ==> buffer.pos == SkipMembers(buffer.data, old(buffer.pos)).value
                      && out.data == old(out.data) + buffer.data[old(buffer.pos)..buffer.pos]
  {
    var start := buffer.pos;
    var count :- buffer.GetU2();
    out.WriteShort(count);
    U2Of(buffer.data, start);
    var _ :- CopyMemberList(buffer, out, count);
    AppendSlices(old(out.data), buffer.data, start, start + 2, buffer.pos);
    r := Ok(());
  }

  /** One iteration of the search, as the loop sees it. */
  lemma SearchStep(b: seq<byte>, test: NameTest, pos: nat, remaining: nat, i: nat, found: Result<bool>, next: nat)
    requires remaining > 0
    requires found.Err? <==> RvaStep(b, test, pos).None?
    requires found == Ok(true) <==> RvaStep(b, test, pos) == Some(None)
    requires found == Ok(false) ==> RvaStep(b, test, pos) == Some(Some(next))
    ensures found.Err? ==> FindRvaFrom(b, test, pos, remaining, i).None?
    ensures found == Ok(true) ==> FindRvaFrom(b, test, pos, remaining, i) == Some(i)
    ensures found == Ok(false) ==> FindRvaFrom(b, test, pos, remaining, i) == FindRvaFrom(b, test, next, remaining - 1, i + 1)
  {
    FindRvaStep(b, test, pos, remaining, i);
  }

  /** One step of the search. */
  lemma FindRvaStep(b: seq<byte>, test: NameTest, pos: nat, remaining: nat, i: nat)
    requires remaining > 0
    ensures RvaStep(b, test, pos).None? ==> FindRvaFrom(b, test, pos, remaining, i).None?
    ensures RvaStep(b, test, pos) == Some(None) ==> FindRvaFrom(b, test, pos, remaining, i) == Some(i)
    ensures RvaStep(b, test, pos).Some? && RvaStep(b, test, pos).value.Some? ==>
              FindRvaFrom(b, test, pos, remaining, i)
              == FindRvaFrom(b, test, RvaStep(b, test, pos).value.value, remaining - 1, i + 1)
  {
  }

  /** findRuntimeVisibleAnnotationsAttribute(classBytes, attrStartPos, attrCount):
      positions a fresh cursor at the attribute table's count, skips it,
      then walks the attributes. */
  method FindRuntimeVisibleAnnotationsAttribute(classBytes: seq<byte>, attrStartPos: int, attrCount: nat)
    returns (r: Result<int>)
    ensures Agrees(r, if 0 <= attrStartPos && attrStartPos + 2 <= |classBytes|
                      then FindRvaFrom(classBytes, NameIs(classBytes, RvaNameBytes()), attrStartPos + 2, attrCount, 0) else None)
  {
    var buffer := new Cursor(classBytes);
    var _ :- buffer.SetPosition(attrStartPos);
    var _ :- buffer.GetU2();
    r := SearchAttributes(buffer, attrCount, RvaNameBytes(), NameIs(classBytes, RvaNameBytes()));
  }

  /** `test` answers as the comparison with `target` does. The trigger keeps
      the name lookups out of proofs that only apply the test. */
  ghost predicate TestsFor(test: NameTest, classBytes: seq<byte>, target: seq<byte>)
  {
    forall n {:trigger IsRvaName(classBytes, n, target)} :: test(n) == IsRvaName(classBytes, n, target)
  }

  /** The loop of findRuntimeVisibleAnnotationsAttribute over the
      attributes, from the cursor's position, looking for `target`. */
  method SearchAttributes(buffer: Cursor, attrCount: nat, target: seq<byte>, ghost test: NameTest) returns (r: Result<int>)
    requires buffer.Valid() && TestsFor(test, buffer.data, target)
    modifies buffer`pos
    ensures Agrees(r, FindRvaFrom(buffer.data, test, old(buffer.pos), attrCount, 0))
  {
    ghost var spec := FindRvaFrom(buffer.data, test, buffer.pos, attrCount, 0);
    var i := 0;
    while i < attrCount
      invariant buffer.Valid() && i <= attrCount
      invariant spec == FindRvaFrom(buffer.data, test, buffer.pos, attrCount - i, i)
    {
      ghost var p := buffer.pos;
      var found := IsRuntimeVisibleAnnotations(buffer, target, test);
      SearchStep(buffer.data, test, p, attrCount - i, i, found, buffer.pos);
      if found.Err? {
        return Err(found.error);
      } else if found.value {
        return Ok(i);
      }
      i := i + 1;
    }
    r := Ok(-1);
  }

  /** One iteration of the search: reads the attribute's name index and
      length, resolves the name, and when it is not the annotations
      attribute moves the cursor past the attribute's data. */
  method IsRuntimeVisibleAnnotations(buffer: Cursor, target: seq<byte>, ghost test: NameTest) returns (r: Result<bool>)
    requires buffer.Valid() && TestsFor(test, buffer.data, target)
    modifies buffer`pos
    ensures buffer.Valid()
    ensures r.Err? <==> RvaStep(buffer.data, test, old(buffer.pos)).None?
    ensures r == Ok(true) <==> RvaStep(buffer.data, test, old(buffer.pos)) == Some(None)
    ensures r == Ok(false) ==> RvaStep(buffer.data, test, old(buffer.pos)) == Some(Some(buffer.pos))
  {
    ghost var b, p := buffer.data, buffer.pos;
    var nameIndex :- buffer.GetU2();
    var attrLen :- buffer.GetInt();
    assert p + 6 <= |b| && nameIndex == U2At(b, p) && attrLen == S4At(b, p + 2);
    assert test(nameIndex) == IsRvaName(b, nameIndex, target);
    var name :- CP.GetCPString(buffer.data, nameIndex);
    assert test(nameIndex) == Some(name == target);
    if name == target {
      return Ok(true);
    }
    var _ :- buffer.SetPosition(buffer.pos + attrLen);
    r := Ok(false);
  }

  /** A table copied attribute by attribute is the encoding of what it parses to. */
  lemma CopiedTableEncodes(b: seq<byte>, pos: nat, count: nat)
    requires pos <= |b| && SkipAttributes(b, pos, count).Some?
    ensures ParseAttributes(b, pos, count).Some?
    ensures var r := ParseAttributes(b, pos, count).value;
      && r.1 == SkipAttributes(b, pos, count).value
      && ValidAttributes(r.0)
      && b[pos..r.1] == EncodeAttributes(r.0)
  {
    ParseAttributesSkips(b, pos, count);
    ParseAttributesEncodes(b, pos, count);
  }
}
