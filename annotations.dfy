/** The RuntimeVisibleAnnotations attribute body (JVMS 4.7.16): annotations
    made of element-value pairs whose values (JVMS 4.7.16.1) are constants,
    enum constants, nested annotations or arrays. The encoder is what a
    DataOutputStream writer emits; the parser reads the same layout back. */
module Annotations {
  import opened Wrappers
  import opened Bytes
  import opened SeqFacts

  const TAG_ENUM: byte := 101        // 'e'
  const TAG_ANNOTATION: byte := 64   // '@'
  const TAG_ARRAY: byte := 91        // '['
  const TAG_STRING: byte := 115      // 's'
  const TAG_BOOLEAN: byte := 90      // 'Z'

  /** Tags whose value is a single u2 index: B C D F I J S Z s and c. */
  predicate IsConstTag(t: byte)
  {
    t == 66 || t == 67 || t == 68 || t == 70 || t == 73 || t == 74 || t == 83 || t == 90
    || t == 115 || t == 99
  }

  datatype ElementValue =
    | ConstValue(tag: byte, index: int)
    | EnumValue(typeNameIndex: int, constNameIndex: int)
    | AnnotationValue(annotation: Annotation)
    | ArrayValue(values: seq<ElementValue>)

  datatype ElementValuePair = ElementValuePair(nameIndex: int, value: ElementValue)

  datatype Annotation = Annotation(typeIndex: int, pairs: seq<ElementValuePair>)

  predicate IsU2(v: int)
  {
    0 <= v < TWO_16
  }

  // ---------------------------------------------------------------------
  // Encoding

  function EncodeValue(v: ElementValue): seq<byte>
    decreases v, 0
  {
    match v
    case ConstValue(tag, index) => [tag] + U2(index)
    case EnumValue(t, c) => [TAG_ENUM] + U2(t) + U2(c)
    case AnnotationValue(a) => [TAG_ANNOTATION] + EncodeAnnotation(a)
    case ArrayValue(vs) => [TAG_ARRAY] + U2(|vs|) + EncodeValues(vs)
  }

  function EncodeValues(vs: seq<ElementValue>): seq<byte>
    decreases vs, 1
  {
    if vs == [] then [] else EncodeValue(vs[0]) + EncodeValues(vs[1..])
  }

  function EncodePair(p: ElementValuePair): seq<byte>
    decreases p, 0
  {
    U2(p.nameIndex) + EncodeValue(p.value)
  }

  function EncodePairs(ps: seq<ElementValuePair>): seq<byte>
    decreases ps, 1
  {
    if ps == [] then [] else EncodePair(ps[0]) + EncodePairs(ps[1..])
  }

  function EncodeAnnotation(a: Annotation): seq<byte>
    decreases a, 2
  {
    U2(a.typeIndex) + U2(|a.pairs|) + EncodePairs(a.pairs)
  }

  function EncodeAnnotations(anns: seq<Annotation>): seq<byte>
  {
    if anns == [] then [] else EncodeAnnotation(anns[0]) + EncodeAnnotations(anns[1..])
  }

  /** A RuntimeVisibleAnnotations body: num_annotations, then the annotations. */
  function EncodeBody(anns: seq<Annotation>): seq<byte>
  {
    U2(|anns|) + EncodeAnnotations(anns)
  }

  /** Values the encoding represents faithfully: known tags, and every index
      and count within a u2. */
  predicate ValidValue(v: ElementValue)
    decreases v, 0
  {
    match v
    case ConstValue(tag, index) => IsConstTag(tag) && IsU2(index)
    case EnumValue(t, c) => IsU2(t) && IsU2(c)
    case AnnotationValue(a) => ValidAnnotation(a)
    case ArrayValue(vs) => IsU2(|vs|) && ValidValues(vs)
  }

  predicate ValidValues(vs: seq<ElementValue>)
    decreases vs, 1
  {
    vs == [] || (ValidValue(vs[0]) && ValidValues(vs[1..]))
  }

  predicate ValidPair(p: ElementValuePair)
    decreases p, 0
  {
    IsU2(p.nameIndex) && ValidValue(p.value)
  }

  predicate ValidPairs(ps: seq<ElementValuePair>)
    decreases ps, 1
  {
    ps == [] || (ValidPair(ps[0]) && ValidPairs(ps[1..]))
  }

  predicate ValidAnnotation(a: Annotation)
    decreases a, 2
  {
    IsU2(a.typeIndex) && IsU2(|a.pairs|) && ValidPairs(a.pairs)
  }

  predicate ValidAnnotations(anns: seq<Annotation>)
  {
    forall k :: 0 <= k < |anns| ==> ValidAnnotation(anns[k])
  }

  // ---------------------------------------------------------------------
  // Parsing, position based: each parser returns what it read and where it stopped

  function ParseValue(b: seq<byte>, pos: nat): (r: Option<(ElementValue, nat)>)
    requires pos <= |b|
    ensures r.Some? ==> pos < r.value.1 <= |b|
    decreases |b| - pos, 0
  {
    if pos >= |b| then None
    else
      var tag := b[pos];
      if IsConstTag(tag) then
        if pos + 3 > |b| then None else Some((ConstValue(tag, U2At(b, pos + 1)), pos + 3))
      else if tag == TAG_ENUM then
        if pos + 5 > |b| then None else Some((EnumValue(U2At(b, pos + 1), U2At(b, pos + 3)), pos + 5))
      else if tag == TAG_ANNOTATION then
        var p :- ParseAnnotation(b, pos + 1);
        Some((AnnotationValue(p.0), p.1))
      else if tag == TAG_ARRAY then
        if pos + 3 > |b| then None
        else
          var p :- ParseValues(b, pos + 3, U2At(b, pos + 1));
          Some((ArrayValue(p.0), p.1))
      else None
  }

  function ParseValues(b: seq<byte>, pos: nat, count: nat): (r: Option<(seq<ElementValue>, nat)>)
    requires pos <= |b|
    ensures r.Some? ==> pos <= r.value.1 <= |b| && |r.value.0| == count
    decreases |b| - pos, 1, count
  {
    if count == 0 then Some(([], pos))
    else
      var first :- ParseValue(b, pos);
      var rest :- ParseValues(b, first.1, count - 1);
      Some(([first.0] + rest.0, rest.1))
  }

  function ParsePairs(b: seq<byte>, pos: nat, count: nat): (r: Option<(seq<ElementValuePair>, nat)>)
    requires pos <= |b|
    ensures r.Some? ==> pos <= r.value.1 <= |b| && |r.value.0| == count
    decreases |b| - pos, 1, count
  {
    if count == 0 then Some(([], pos))
    else if pos + 2 > |b| then None
    else
      var value :- ParseValue(b, pos + 2);
      var rest :- ParsePairs(b, value.1, count - 1);
      Some(([ElementValuePair(U2At(b, pos), value.0)] + rest.0, rest.1))
  }

  function ParseAnnotation(b: seq<byte>, pos: nat): (r: Option<(Annotation, nat)>)
    requires pos <= |b|
    ensures r.Some? ==> pos < r.value.1 <= |b|
    decreases |b| - pos, 2, 0
  {
    if pos + 4 > |b| then None
    else
      var pairs :- ParsePairs(b, pos + 4, U2At(b, pos + 2));
      Some((Annotation(U2At(b, pos), pairs.0), pairs.1))
  }

  function ParseAnnotations(b: seq<byte>, pos: nat, count: nat): (r: Option<(seq<Annotation>, nat)>)
    requires pos <= |b|
    ensures r.Some? ==> pos <= r.value.1 <= |b| && |r.value.0| == count
    decreases count
  {
    if count == 0 then Some(([], pos))
    else
      var first :- ParseAnnotation(b, pos);
      var rest :- ParseAnnotations(b, first.1, count - 1);
      Some(([first.0] + rest.0, rest.1))
  }

  /** A whole attribute body: num_annotations, then exactly that many
      annotations filling the rest of the bytes. */
  function ParseBody(b: seq<byte>): Option<seq<Annotation>>
  {
    if |b| < 2 then None
    else
      var p :- ParseAnnotations(b, 2, U2At(b, 0));
      if p.1 == |b| then Some(p.0) else None
  }

  // ---------------------------------------------------------------------
  // Encode, then parse: the parser reads back every valid value, wherever
  // its encoding sits

  lemma EncodeParseConst(b: seq<byte>, pos: nat, tag: byte, index: int)
    requires IsConstTag(tag) && IsU2(index)
    requires pos + 3 <= |b| && b[pos..pos + 3] == [tag] + U2(index)
    ensures ParseValue(b, pos) == Some((ConstValue(tag, index), pos + 3))
  {
    SplitSlice(b, pos, [tag], U2(index));
    U2RoundTrip(index);
    assert U2At(b, pos + 1) == U2At(U2(index), 0);
  }

  lemma EncodeParseEnum(b: seq<byte>, pos: nat, t: int, c: int)
    requires IsU2(t) && IsU2(c)
    requires pos + 5 <= |b| && b[pos..pos + 5] == [TAG_ENUM] + U2(t) + U2(c)
    ensures ParseValue(b, pos) == Some((EnumValue(t, c), pos + 5))
  {
    SplitSlice(b, pos, [TAG_ENUM] + U2(t), U2(c));
    SplitSlice(b, pos, [TAG_ENUM], U2(t));
    U2RoundTrip(t);
    U2RoundTrip(c);
    assert U2At(b, pos + 1) == U2At(U2(t), 0);
    assert U2At(b, pos + 3) == U2At(U2(c), 0);
  }

  lemma {:induction false} EncodeParseValue(b: seq<byte>, pos: nat, v: ElementValue)
    requires ValidValue(v)
    requires pos + |EncodeValue(v)| <= |b| && b[pos..pos + |EncodeValue(v)|] == EncodeValue(v)
    ensures ParseValue(b, pos) == Some((v, pos + |EncodeValue(v)|))
    decreases v, 0
  {
    match v
    case ConstValue(tag, index) =>
      EncodeParseConst(b, pos, tag, index);
    case EnumValue(t, c) =>
      EncodeParseEnum(b, pos, t, c);
    case AnnotationValue(a) =>
      EncodeParseNested(b, pos, a);
    case ArrayValue(vs) =>
      EncodeParseArray(b, pos, vs);
  }

  lemma {:induction false} EncodeParseNested(b: seq<byte>, pos: nat, a: Annotation)
    requires ValidAnnotation(a)
    requires pos + 1 + |EncodeAnnotation(a)| <= |b| && b[pos..pos + 1 + |EncodeAnnotation(a)|] == [TAG_ANNOTATION] + EncodeAnnotation(a)
    ensures ParseValue(b, pos) == Some((AnnotationValue(a), pos + 1 + |EncodeAnnotation(a)|))
    decreases a, 3
  {
    SplitSlice(b, pos, [TAG_ANNOTATION], EncodeAnnotation(a));
    EncodeParseAnnotation(b, pos + 1, a);
  }

  lemma {:induction false} EncodeParseArray(b: seq<byte>, pos: nat, vs: seq<ElementValue>)
    requires ValidValues(vs) && IsU2(|vs|)
    requires pos + 3 + |EncodeValues(vs)| <= |b|
    requires b[pos..pos + 3 + |EncodeValues(vs)|] == [TAG_ARRAY] + U2(|vs|) + EncodeValues(vs)
    ensures ParseValue(b, pos) == Some((ArrayValue(vs), pos + 3 + |EncodeValues(vs)|))
    decreases vs, 2
  {
    SplitSlice(b, pos, [TAG_ARRAY] + U2(|vs|), EncodeValues(vs));
    SplitSlice(b, pos, [TAG_ARRAY], U2(|vs|));
    U2RoundTrip(|vs|);
    assert U2At(b, pos + 1) == U2At(U2(|vs|), 0);
    EncodeParseValues(b, pos + 3, vs);
  }

  lemma {:induction false} EncodeParseValues(b: seq<byte>, pos: nat, vs: seq<ElementValue>)
    requires ValidValues(vs)
    requires pos + |EncodeValues(vs)| <= |b| && b[pos..pos + |EncodeValues(vs)|] == EncodeValues(vs)
    ensures ParseValues(b, pos, |vs|) == Some((vs, pos + |EncodeValues(vs)|))
    decreases vs, 1
  {
    if vs != [] {
      SplitSlice(b, pos, EncodeValue(vs[0]), EncodeValues(vs[1..]));
      EncodeParseValue(b, pos, vs[0]);
      EncodeParseValues(b, pos + |EncodeValue(vs[0])|, vs[1..]);
      assert [vs[0]] + vs[1..] == vs;
    }
  }

  lemma {:induction false} EncodeParsePair(b: seq<byte>, pos: nat, p: ElementValuePair)
    requires ValidPair(p)
    requires pos + |EncodePair(p)| <= |b| && b[pos..pos + |EncodePair(p)|] == EncodePair(p)
    ensures pos + 2 <= |b| && U2At(b, pos) == p.nameIndex
    ensures ParseValue(b, pos + 2) == Some((p.value, pos + |EncodePair(p)|))
    decreases p, 0
  {
    SplitSlice(b, pos, U2(p.nameIndex), EncodeValue(p.value));
    U2RoundTrip(p.nameIndex);
    assert U2At(b, pos) == U2At(U2(p.nameIndex), 0);
    EncodeParseValue(b, pos + 2, p.value);
  }

  lemma {:induction false} EncodeParsePairs(b: seq<byte>, pos: nat, ps: seq<ElementValuePair>)
    requires ValidPairs(ps)
    requires pos + |EncodePairs(ps)| <= |b| && b[pos..pos + |EncodePairs(ps)|] == EncodePairs(ps)
    ensures ParsePairs(b, pos, |ps|) == Some((ps, pos + |EncodePairs(ps)|))
    decreases ps, 1
  {
    if ps != [] {
      SplitSlice(b, pos, EncodePair(ps[0]), EncodePairs(ps[1..]));
      EncodeParsePair(b, pos, ps[0]);
      EncodeParsePairs(b, pos + |EncodePair(ps[0])|, ps[1..]);
      assert [ElementValuePair(ps[0].nameIndex, ps[0].value)] + ps[1..] == ps;
    }
  }

  lemma {:induction false} EncodeParseAnnotation(b: seq<byte>, pos: nat, a: Annotation)
    requires ValidAnnotation(a)
    requires pos + |EncodeAnnotation(a)| <= |b| && b[pos..pos + |EncodeAnnotation(a)|] == EncodeAnnotation(a)
    ensures ParseAnnotation(b, pos) == Some((a, pos + |EncodeAnnotation(a)|))
    decreases a, 2
  {
    SplitSlice(b, pos, U2(a.typeIndex) + U2(|a.pairs|), EncodePairs(a.pairs));
    SplitSlice(b, pos, U2(a.typeIndex), U2(|a.pairs|));
    U2RoundTrip(a.typeIndex);
    U2RoundTrip(|a.pairs|);
    assert U2At(b, pos) == U2At(U2(a.typeIndex), 0);
    assert U2At(b, pos + 2) == U2At(U2(|a.pairs|), 0);
    EncodeParsePairs(b, pos + 4, a.pairs);
  }

  lemma {:induction false} EncodeParseAnnotations(b: seq<byte>, pos: nat, anns: seq<Annotation>)
    requires ValidAnnotations(anns)
    requires pos + |EncodeAnnotations(anns)| <= |b| && b[pos..pos + |EncodeAnnotations(anns)|] == EncodeAnnotations(anns)
    ensures ParseAnnotations(b, pos, |anns|) == Some((anns, pos + |EncodeAnnotations(anns)|))
    decreases anns
  {
    if anns != [] {
      var end := pos + |EncodeAnnotations(anns)|;
      var next := FirstAnnotationReadsBack(b, pos, anns, end);
      EncodeParseAnnotations(b, next, anns[1..]);
      ParseAnnotationsCons(b, pos, |anns|, anns[0], next, anns[1..], end);
      assert [anns[0]] + anns[1..] == anns;
    }
  }

  /** The first of valid annotations encoded at `pos` reads back, and the
      rest are encoded where it stops. */
  lemma FirstAnnotationReadsBack(b: seq<byte>, pos: nat, anns: seq<Annotation>, end: nat) returns (next: nat)
    requires anns != [] && ValidAnnotations(anns)
    requires end == pos + |EncodeAnnotations(anns)| <= |b| && b[pos..end] == EncodeAnnotations(anns)
    ensures ParseAnnotation(b, pos) == Some((anns[0], next))
    ensures ValidAnnotations(anns[1..]) && |anns[1..]| == |anns| - 1
    ensures end == next + |EncodeAnnotations(anns[1..])| && b[next..end] == EncodeAnnotations(anns[1..])
  {
    var first, rest := EncodeAnnotation(anns[0]), EncodeAnnotations(anns[1..]);
    assert EncodeAnnotations(anns) == first + rest;
    SplitSlice(b, pos, first, rest);
    ValidAnnotationsTail(anns);
    EncodeParseAnnotation(b, pos, anns[0]);
    next := pos + |first|;
  }

  lemma ValidAnnotationsTail(anns: seq<Annotation>)
    requires anns != [] && ValidAnnotations(anns)
    ensures ValidAnnotation(anns[0]) && ValidAnnotations(anns[1..])
  {
    forall k | 0 <= k < |anns| - 1 ensures ValidAnnotation(anns[1..][k]) {
      assert anns[1..][k] == anns[k + 1];
    }
  }

  /** One annotation, then the rest. */
  lemma ParseAnnotationsCons(b: seq<byte>, pos: nat, count: nat, a: Annotation, next: nat,
                             rest: seq<Annotation>, end: nat)
    requires pos <= |b| && count > 0
    requires ParseAnnotation(b, pos) == Some((a, next))
    requires ParseAnnotations(b, next, count - 1) == Some((rest, end))
    ensures ParseAnnotations(b, pos, count) == Some(([a] + rest, end))
  {
  }

  /** Every body of valid annotations reads back as those annotations. */
  lemma BodyRoundTrip(anns: seq<Annotation>)
    requires ValidAnnotations(anns) && IsU2(|anns|)
    ensures ParseBody(EncodeBody(anns)) == Some(anns)
  {
    var b := EncodeBody(anns);
    SplitSlice(b, 0, U2(|anns|), EncodeAnnotations(anns));
    U2RoundTrip(|anns|);
    assert U2At(b, 0) == U2At(U2(|anns|), 0);
    EncodeParseAnnotations(b, 2, anns);
  }

  // ---------------------------------------------------------------------
  // Parse, then encode: whatever the parser accepts is valid and is exactly
  // the encoding of what it returned

  lemma {:induction false} ParseEncodeValue(b: seq<byte>, pos: nat)
    requires pos <= |b| && ParseValue(b, pos).Some?
    ensures var r := ParseValue(b, pos).value;
      ValidValue(r.0) && r.1 == pos + |EncodeValue(r.0)| && b[pos..r.1] == EncodeValue(r.0)
    decreases |b| - pos, 0, 1
  {
    var tag := b[pos];
    if IsConstTag(tag) {
      ParseEncodeConst(b, pos);
    } else if tag == TAG_ENUM {
      ParseEncodeEnum(b, pos);
    } else if tag == TAG_ANNOTATION {
      ParseEncodeNested(b, pos);
    } else {
      ParseEncodeArray(b, pos);
    }
  }

  lemma ParseEncodeConst(b: seq<byte>, pos: nat)
    requires pos < |b| && IsConstTag(b[pos]) && ParseValue(b, pos).Some?
    ensures var r := ParseValue(b, pos).value;
      ValidValue(r.0) && r.1 == pos + |EncodeValue(r.0)| && b[pos..r.1] == EncodeValue(r.0)
  {
    U2Of(b, pos + 1);
    assert b[pos..pos + 3] == [b[pos]] + b[pos + 1..pos + 3];
  }

  lemma ParseEncodeEnum(b: seq<byte>, pos: nat)
    requires pos < |b| && b[pos] == TAG_ENUM && ParseValue(b, pos).Some?
    ensures var r := ParseValue(b, pos).value;
      ValidValue(r.0) && r.1 == pos + |EncodeValue(r.0)| && b[pos..r.1] == EncodeValue(r.0)
  {
    U2Of(b, pos + 1);
    U2Of(b, pos + 3);
    assert b[pos..pos + 5] == [b[pos]] + b[pos + 1..pos + 3] + b[pos + 3..pos + 5];
  }

  lemma {:induction false} ParseEncodeNested(b: seq<byte>, pos: nat)
    requires pos < |b| && b[pos] == TAG_ANNOTATION && ParseValue(b, pos).Some?
    ensures var r := ParseValue(b, pos).value;
      ValidValue(r.0) && r.1 == pos + |EncodeValue(r.0)| && b[pos..r.1] == EncodeValue(r.0)
    decreases |b| - pos, 0, 0
  {
    var r := ParseValue(b, pos).value;
    ParseEncodeAnnotation(b, pos + 1);
    assert b[pos..r.1] == [b[pos]] + b[pos + 1..r.1];
  }

  lemma {:induction false} ParseEncodeArray(b: seq<byte>, pos: nat)
    requires pos < |b| && b[pos] == TAG_ARRAY && ParseValue(b, pos).Some?
    ensures var r := ParseValue(b, pos).value;
      ValidValue(r.0) && r.1 == pos + |EncodeValue(r.0)| && b[pos..r.1] == EncodeValue(r.0)
    decreases |b| - pos, 0, 0
  {
    var r := ParseValue(b, pos).value;
    var n := U2At(b, pos + 1);
    ParseEncodeValues(b, pos + 3, n);
    U2Of(b, pos + 1);
    assert b[pos..r.1] == [b[pos]] + b[pos + 1..pos + 3] + b[pos + 3..r.1];
  }

  lemma {:induction false} ParseEncodeValues(b: seq<byte>, pos: nat, count: nat)
    requires pos <= |b| && ParseValues(b, pos, count).Some?
    ensures var r := ParseValues(b, pos, count).value;
      ValidValues(r.0) && r.1 == pos + |EncodeValues(r.0)| && b[pos..r.1] == EncodeValues(r.0)
    decreases |b| - pos, 1, count
  {
    if count > 0 {
      var first := ParseValue(b, pos).value;
      var rest := ParseValues(b, first.1, count - 1).value;
      ParseEncodeValue(b, pos);
      ParseEncodeValues(b, first.1, count - 1);
      var vs := [first.0] + rest.0;
      assert vs[0] == first.0 && vs[1..] == rest.0;
      assert b[pos..rest.1] == b[pos..first.1] + b[first.1..rest.1];
    }
  }

  lemma {:induction false} ParseEncodePairs(b: seq<byte>, pos: nat, count: nat)
    requires pos <= |b| && ParsePairs(b, pos, count).Some?
    ensures var r := ParsePairs(b, pos, count).value;
      ValidPairs(r.0) && r.1 == pos + |EncodePairs(r.0)| && b[pos..r.1] == EncodePairs(r.0)
    decreases |b| - pos, 1, count
  {
    if count > 0 {
      var value := ParseValue(b, pos + 2).value;
      var rest := ParsePairs(b, value.1, count - 1).value;
      ParseEncodeValue(b, pos + 2);
      ParseEncodePairs(b, value.1, count - 1);
      U2Of(b, pos);
      var p := ElementValuePair(U2At(b, pos), value.0);
      var ps := [p] + rest.0;
      assert ps[0] == p && ps[1..] == rest.0;
      assert EncodePairs(ps) == EncodePair(p) + EncodePairs(rest.0);
      JoinSlices(b, pos, pos + 2, value.1);
      assert EncodePair(p) == b[pos..value.1];
      JoinSlices(b, pos, value.1, rest.1);
    }
  }

  lemma {:induction false} ParseEncodeAnnotation(b: seq<byte>, pos: nat)
    requires pos <= |b| && ParseAnnotation(b, pos).Some?
    ensures var r := ParseAnnotation(b, pos).value;
      ValidAnnotation(r.0) && r.1 == pos + |EncodeAnnotation(r.0)| && b[pos..r.1] == EncodeAnnotation(r.0)
    decreases |b| - pos, 2, 0
  {
    var n := U2At(b, pos + 2);
    var pairs := ParsePairs(b, pos + 4, n).value;
    ParseEncodePairs(b, pos + 4, n);
    U2Of(b, pos);
    U2Of(b, pos + 2);
    assert b[pos..pairs.1] == b[pos..pos + 2] + b[pos + 2..pos + 4] + b[pos + 4..pairs.1];
  }

  lemma {:induction false} ParseEncodeAnnotations(b: seq<byte>, pos: nat, count: nat)
    requires pos <= |b| && ParseAnnotations(b, pos, count).Some?
    ensures var r := ParseAnnotations(b, pos, count).value;
      ValidAnnotations(r.0) && r.1 == pos + |EncodeAnnotations(r.0)| && b[pos..r.1] == EncodeAnnotations(r.0)
    decreases count
  {
    if count > 0 {
      var first := ParseAnnotation(b, pos).value;
      var rest := ParseAnnotations(b, first.1, count - 1).value;
      ParseEncodeAnnotation(b, pos);
      ParseEncodeAnnotations(b, first.1, count - 1);
      var anns := [first.0] + rest.0;
      assert anns[0] == first.0 && anns[1..] == rest.0;
      ValidAnnotationsCons(first.0, rest.0);
      assert EncodeAnnotations(anns) == EncodeAnnotation(first.0) + EncodeAnnotations(rest.0);
      JoinSlices(b, pos, first.1, rest.1);
    }
  }

  lemma ValidAnnotationsCons(a: Annotation, rest: seq<Annotation>)
    requires ValidAnnotation(a) && ValidAnnotations(rest)
    ensures ValidAnnotations([a] + rest)
  {
    forall k | 0 <= k < 1 + |rest| ensures ValidAnnotation(([a] + rest)[k]) {
      if k > 0 { assert ([a] + rest)[k] == rest[k - 1]; }
    }
  }

  /** A body the parser accepts is the encoding of what it read. */
  lemma ParseBodyEncodes(b: seq<byte>)
    requires ParseBody(b).Some?
    ensures ValidAnnotations(ParseBody(b).value) && IsU2(|ParseBody(b).value|)
    ensures EncodeBody(ParseBody(b).value) == b
  {
    var anns := ParseBody(b).value;
    ParseEncodeAnnotations(b, 2, U2At(b, 0));
    U2Of(b, 0);
    assert b == b[..2] + b[2..];
  }

  lemma {:induction false} EncodeValuesSnoc(vs: seq<ElementValue>, v: ElementValue)
    ensures EncodeValues(vs + [v]) == EncodeValues(vs) + EncodeValue(v)
    decreases vs
  {
    if vs != [] {
      assert (vs + [v])[1..] == vs[1..] + [v];
      EncodeValuesSnoc(vs[1..], v);
    }
  }

  lemma {:induction false} EncodePairsSnoc(ps: seq<ElementValuePair>, p: ElementValuePair)
    ensures EncodePairs(ps + [p]) == EncodePairs(ps) + EncodePair(p)
    decreases ps
  {
    if ps != [] {
      assert (ps + [p])[1..] == ps[1..] + [p];
      EncodePairsSnoc(ps[1..], p);
    }
  }

  lemma {:induction false} EncodeAnnotationsSnoc(anns: seq<Annotation>, a: Annotation)
    ensures EncodeAnnotations(anns + [a]) == EncodeAnnotations(anns) + EncodeAnnotation(a)
    decreases anns
  {
    if anns != [] {
      assert (anns + [a])[1..] == anns[1..] + [a];
      EncodeAnnotationsSnoc(anns[1..], a);
    }
  }

  /** Appending one annotation to a well-formed body: bump num_annotations,
      keep the old annotation bytes, add the new one's encoding. The result
      reads back as the old annotations followed by the new one. */
  lemma AppendToBody(body: seq<byte>, a: Annotation)
    requires ParseBody(body).Some? && ValidAnnotation(a)
    requires U2At(body, 0) + 1 < TWO_16
    ensures ParseBody(U2(U2At(body, 0) + 1) + body[2..] + EncodeAnnotation(a)) == Some(ParseBody(body).value + [a])
  {
    var existing := ParseBody(body).value;
    ParseBodyEncodes(body);
    var anns := existing + [a];
    assert ValidAnnotations(anns) by {
      forall k | 0 <= k < |anns| ensures ValidAnnotation(anns[k]) {
        if k < |existing| { assert anns[k] == existing[k]; }
      }
    }
    EncodeAnnotationsSnoc(existing, a);
    assert body[2..] == EncodeAnnotations(existing) by {
      assert body == U2(|existing|) + EncodeAnnotations(existing);
    }
    assert U2(U2At(body, 0) + 1) + body[2..] + EncodeAnnotation(a) == EncodeBody(anns);
    BodyRoundTrip(anns);
  }
}
