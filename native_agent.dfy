/** parse_constant_pool of the native JVMTI agent (native-agent/agent.c): a
    byte-cursor walk over the raw constant pool the JVM hands out, which
    reports the element values of every ClassportInfo annotation it meets.
    The printf/fprintf output is modelled as the list of reports written. */
module NativeAgent {
  import opened Wrappers
  import opened Bytes
  import opened SeqFacts
  import ConstantPool

  /** The three strings the walk compares Utf8 entries with (strcmp). */
  const MARKER: string := "Lio/github/chains_project/classport/commons/ClassportInfo;"
  const RVA_NAME: string := "RuntimeVisibleAnnotations"
  const SKIPPED_KEY: string := "isDirectDependency"

  /** The compared texts, passed down as one value so that the walk's
      general properties hold for any three texts. */
  datatype Texts = Texts(marker: string, rvaName: string, skippedKey: string)

  const TEXTS: Texts := Texts(MARKER, RVA_NAME, SKIPPED_KEY)

  const CONSTANT_UTF8: byte := 1

  /** What the agent writes: the banner for a found annotation (with the
      class signature and method name of the method being entered), a
      "key: value" line, and the stderr line for a tag it does not know. */
  datatype Report =
    | FoundAnnotation(descriptor: string, classSignature: string, methodName: string)
    | Pair(key: string, value: string)
    | UnknownTag(tag: byte)

  /** The method being entered, as the callback passes it down. */
  datatype Caller = Caller(classSignature: string, methodName: string)

  /** The walk's mutable state: found_annotation, and the key kept in `value`. */
  datatype Scanner = Scanner(found: bool, value: Option<string>)

  const INITIAL: Scanner := Scanner(false, None)

  /** The tags the switch names (CONSTANT_Dynamic, 17, is not among them). */
  predicate Known(tag: byte)
  {
    tag == 1 || 3 <= tag <= 12 || tag == 15 || tag == 16 || 18 <= tag <= 20
  }

  /** How far a non-Utf8 case moves the cursor: its `i += k` plus the
      loop's own `i++`. An unknown tag moves past the tag byte only. */
  function Advance(tag: byte): (n: nat)
    ensures 1 <= n <= 9
    ensures !Known(tag) ==> n == 1
  {
    if tag == 3 || tag == 4 then 5                                   // Integer, Float
    else if tag == 5 || tag == 6 then 9                              // Long, Double
    else if tag == 7 || tag == 8 || tag == 16 || tag == 19 || tag == 20 then 3
    else if tag == 9 || tag == 10 || tag == 11 || tag == 12 || tag == 18 then 5
    else if tag == 15 then 4                                         // MethodHandle
    else 1
  }

  /** The text strcmp, strdup and printf see in a copied Utf8 entry: the
      bytes up to the first NUL (the copy is NUL-terminated after them). */
  function CString(t: seq<byte>): (r: string)
    ensures |r| <= |t|
  {
    if t == [] || t[0] == 0 then [] else [t[0] as char] + CString(t[1..])
  }

  /** The text is every byte before the first NUL, or all of them when
      there is none. */
  lemma {:induction false} CStringStopsAtNul(t: seq<byte>)
    ensures var r := CString(t);
      && (forall k :: 0 <= k < |r| ==> t[k] != 0 && r[k] == t[k] as char)
      && (|r| < |t| ==> t[|r|] == 0)
  {
    if t != [] && t[0] != 0 {
      CStringStopsAtNul(t[1..]);
      var r := CString(t);
      assert r == [t[0] as char] + CString(t[1..]);
      forall k | 0 <= k < |r| ensures t[k] != 0 && r[k] == t[k] as char {
        if k > 0 { assert t[k] == t[1..][k - 1]; }
      }
    }
  }

  /** One visited entry: where it starts, its tag, how far the cursor moves
      past it, and (for Utf8) its text. */
  datatype Entry = Entry(offset: nat, tag: byte, size: nat, text: string)

  /** The entry at cursor i, or None when reading a Utf8 entry would run
      past the buffer (the C code reads there without a check). */
  function EntryAt(b: seq<byte>, i: nat): (r: Option<Entry>)
    requires i < |b|
    ensures r.Some? ==> r.value.offset == i && r.value.tag == b[i] && r.value.size >= 1
    ensures b[i] != CONSTANT_UTF8 ==> r == Some(Entry(i, b[i], Advance(b[i]), []))
    ensures b[i] == CONSTANT_UTF8 ==>
              (r.Some? <==> i + 3 <= |b| && i + 3 + U2At(b, i + 1) <= |b|)
    ensures b[i] == CONSTANT_UTF8 && r.Some? ==>
              r.value.size == 3 + U2At(b, i + 1) && r.value.text == CString(b[i + 3..i + r.value.size])
  {
    if b[i] != CONSTANT_UTF8 then Some(Entry(i, b[i], Advance(b[i]), []))
    else if i + 3 > |b| then None
    else
      var length := U2At(b, i + 1);
      if i + 3 + length > |b| then None
      else Some(Entry(i, b[i], 3 + length, CString(b[i + 3..i + 3 + length])))
  }

  /** The state machine's reaction to one entry: the new state and what it
      prints, at most one line. A non-Utf8 entry leaves the state alone, and
      the marker always sets the flag. */
  function React(s: Scanner, e: Entry, c: Caller, k: Texts): (r: (Scanner, seq<Report>))
    ensures |r.1| <= 1
    ensures e.tag != CONSTANT_UTF8 ==> r.0 == s
    ensures e.tag == CONSTANT_UTF8 && e.text == k.marker ==> r.0.found
  {
    if e.tag != CONSTANT_UTF8 then
      (s, if Known(e.tag) then [] else [UnknownTag(e.tag)])
    else if e.text == k.marker then
      (Scanner(true, s.value), [FoundAnnotation(e.text, c.classSignature, c.methodName)])
    else if e.text == k.rvaName then
      (Scanner(false, s.value), [])
    else if s.found && e.text != k.skippedKey then
      if s.value.Some? then (Scanner(true, None), [Pair(s.value.value, e.text)])
      else (Scanner(true, Some(e.text)), [])
    else (s, [])
  }

  /** Everything the walk from cursor i in state s writes, or None when it
      would read past the buffer. */
  function ScanFrom(b: seq<byte>, i: nat, s: Scanner, c: Caller, k: Texts): (r: Option<seq<Report>>)
    ensures r.Some? ==> |r.value| <= |b| - i || r.value == []
    ensures i < |b| && EntryAt(b, i).None? ==> r.None?
    decreases |b| - i
  {
    if i >= |b| then Some([])
    else
      match EntryAt(b, i)
      case None => None
      case Some(e) =>
        var r := React(s, e, c, k);
        match ScanFrom(b, i + e.size, r.0, c, k)
        case None => None
        case Some(rest) => Some(r.1 + rest)
  }

  /** The walk so far has written `printed` and stands at cursor i in
      state s, from where the rest of the walk succeeds and completes the
      whole walk's output `total`. */
  ghost predicate Progress(b: seq<byte>, i: nat, s: Scanner, c: Caller, k: Texts, printed: seq<Report>, total: seq<Report>)
  {
    ScanFrom(b, i, s, c, k).Some? && total == printed + ScanFrom(b, i, s, c, k).value
  }

  lemma ProgressStart(b: seq<byte>, c: Caller, k: Texts)
    requires ScanFrom(b, 0, INITIAL, c, k).Some?
    ensures Progress(b, 0, INITIAL, c, k, [], ScanFrom(b, 0, INITIAL, c, k).value)
  {
    assert [] + ScanFrom(b, 0, INITIAL, c, k).value == ScanFrom(b, 0, INITIAL, c, k).value;
  }

  /** At the end of the buffer the walk has written all it writes. */
  lemma ProgressDone(b: seq<byte>, i: nat, s: Scanner, c: Caller, k: Texts, printed: seq<Report>, total: seq<Report>)
    requires Progress(b, i, s, c, k, printed, total) && i >= |b|
    ensures printed == total
  {
    assert ScanFrom(b, i, s, c, k) == Some([]);
    assert printed + [] == printed;
  }

  /** One step of the walk: the entry's output, then the rest of the walk. */
  lemma ScanStep(b: seq<byte>, i: nat, s: Scanner, c: Caller, k: Texts)
    requires i < |b| && EntryAt(b, i).Some?
    ensures var e := EntryAt(b, i).value;
            var r := React(s, e, c, k);
      && (ScanFrom(b, i, s, c, k).Some? <==> ScanFrom(b, i + e.size, r.0, c, k).Some?)
      && (ScanFrom(b, i, s, c, k).Some? ==> ScanFrom(b, i, s, c, k).value == r.1 + ScanFrom(b, i + e.size, r.0, c, k).value)
  {
  }

  /** From a cursor inside the buffer the walk reads one entry, and the
      progress carries over past it with the entry's output appended. */
  lemma ProgressStep(b: seq<byte>, i: nat, s: Scanner, c: Caller, k: Texts, printed: seq<Report>, total: seq<Report>)
    requires Progress(b, i, s, c, k, printed, total) && i < |b|
    ensures EntryAt(b, i).Some?
    ensures var e := EntryAt(b, i).value;
            var r := React(s, e, c, k);
            Progress(b, i + e.size, r.0, c, k, printed + r.1, total)
  {
    var e := EntryAt(b, i).value;
    var r := React(s, e, c, k);
    ScanStep(b, i, s, c, k);
    var here := ScanFrom(b, i, s, c, k).value;
    var rest := ScanFrom(b, i + e.size, r.0, c, k).value;
    assert here == r.1 + rest;
    Associative(printed, r.1, rest);
  }

  // ---------------------------------------------------------------------
  // The walk as two phases: the entries visited, then the state machine

  /** The entries the cursor visits from i to the end of the buffer. */
  function Entries(b: seq<byte>, i: nat): Option<seq<Entry>>
    decreases |b| - i
  {
    if i >= |b| then Some([])
    else
      match EntryAt(b, i)
      case None => None
      case Some(e) =>
        match Entries(b, i + e.size)
        case None => None
        case Some(rest) => Some([e] + rest)
  }

  /** The state machine run over a list of entries. */
  function Run(es: seq<Entry>, s: Scanner, c: Caller, k: Texts): (r: seq<Report>)
    ensures |r| <= |es|
  {
    if es == [] then []
    else
      var r := React(s, es[0], c, k);
      r.1 + Run(es[1..], r.0, c, k)
  }

  /** The one-pass walk is the state machine run over the visited entries:
      the walk and the machine can be reasoned about apart. */
  lemma {:induction false} ScanIsRun(b: seq<byte>, i: nat, s: Scanner, c: Caller, k: Texts)
    ensures ScanFrom(b, i, s, c, k).Some? <==> Entries(b, i).Some?
    ensures Entries(b, i).Some? ==> ScanFrom(b, i, s, c, k).value == Run(Entries(b, i).value, s, c, k)
    decreases |b| - i
  {
    if i < |b| && EntryAt(b, i).Some? {
      var e := EntryAt(b, i).value;
      var r := React(s, e, c, k);
      ScanIsRun(b, i + e.size, r.0, c, k);
      ScanStep(b, i, s, c, k);
      EntriesStep(b, i);
      if Entries(b, i).Some? {
        var es := Entries(b, i).value;
        assert es[0] == e && es[1..] == Entries(b, i + e.size).value;
        assert Run(es, s, c, k) == r.1 + Run(es[1..], r.0, c, k);
      }
    }
  }

  /** One step of the visited entries. */
  lemma EntriesStep(b: seq<byte>, i: nat)
    requires i < |b| && EntryAt(b, i).Some?
    ensures var e := EntryAt(b, i).value;
      && (Entries(b, i).Some? <==> Entries(b, i + e.size).Some?)
      && (Entries(b, i).Some? ==> Entries(b, i).value == [e] + Entries(b, i + e.size).value)
  {
  }

  // ---------------------------------------------------------------------
  // The imperative walk

  /** The CONSTANT_UTF8 case of the switch: read the big-endian length
      (ntohs), copy the text, compare it and update the state. Returns where
      the cursor goes next: past the length, the text and the loop's i++. */
  method Utf8Case(constantPool: array<byte>, i: nat, foundAnnotation: bool, value: Option<string>, c: Caller)
    returns (found': bool, value': Option<string>, out: seq<Report>, next: nat)
    requires i < constantPool.Length && constantPool[i] == CONSTANT_UTF8
    requires EntryAt(constantPool[..], i).Some?
    ensures var e := EntryAt(constantPool[..], i).value;
      && (Scanner(found', value'), out) == React(Scanner(foundAnnotation, value), e, c, TEXTS)
      && next == i + e.size
  {
    ghost var b := constantPool[..];
    var length := (constantPool[i + 1] as int) * 256 + constantPool[i + 2] as int;
    assert length == U2At(b, i + 1);
    assert constantPool[i + 3..i + 3 + length] == b[i + 3..i + 3 + length];
    var utf8 := CString(constantPool[i + 3..i + 3 + length]);
    found', value', out := foundAnnotation, value, [];
    if utf8 == MARKER {
      out := [FoundAnnotation(utf8, c.classSignature, c.methodName)];
      found' := true;
    } else if utf8 == RVA_NAME {
      found' := false;
    } else if foundAnnotation && utf8 != SKIPPED_KEY {
      if value.Some? {
        out := [Pair(value.value, utf8)];
        value' := None;
      } else {
        value' := Some(utf8);
      }
    }
    next := i + 2 + length + 1;
  }

  /** The other cases of the switch: the payload skipped for each known
      tag, the stderr line for an unknown one, then the loop's i++. */
  method OtherCase(tag: byte, i: nat) returns (out: seq<Report>, next: nat)
    requires tag != CONSTANT_UTF8
    ensures out == (if Known(tag) then [] else [UnknownTag(tag)])
    ensures next == i + Advance(tag)
  {
    out, next := [], i;
    if tag == 3 || tag == 4 {
      next := next + 4;
    } else if tag == 5 || tag == 6 {
      next := next + 8;
    } else if tag == 7 || tag == 8 || tag == 16 || tag == 19 || tag == 20 {
      next := next + 2;
    } else if tag == 9 || tag == 10 || tag == 11 || tag == 12 || tag == 18 {
      next := next + 4;
    } else if tag == 15 {
      next := next + 3;
    } else {
      out := [UnknownTag(tag)];
    }
    next := next + 1;
  }

  /** One turn of the loop: the switch on the tag at cursor i. */
  method VisitEntry(constantPool: array<byte>, i: nat, foundAnnotation: bool, value: Option<string>, c: Caller)
    returns (found': bool, value': Option<string>, out: seq<Report>, next: nat)
    requires i < constantPool.Length && EntryAt(constantPool[..], i).Some?
    ensures var e := EntryAt(constantPool[..], i).value;
      && (Scanner(found', value'), out) == React(Scanner(foundAnnotation, value), e, c, TEXTS)
      && next == i + e.size
  {
    var tag := constantPool[i];
    if tag == CONSTANT_UTF8 {
      found', value', out, next := Utf8Case(constantPool, i, foundAnnotation, value, c);
    } else {
      found', value' := foundAnnotation, value;
      out, next := OtherCase(tag, i);
    }
  }

  /** parse_constant_pool over the byte_count bytes of the pool. The C code
      checks no bounds, so every Utf8 entry it reaches must lie inside the
      buffer. */
  method ParseConstantPool(constantPool: array<byte>, classSignature: string, methodName: string)
    returns (printed: seq<Report>)
    requires ScanFrom(constantPool[..], 0, INITIAL, Caller(classSignature, methodName), TEXTS).Some?
    ensures Some(printed) == ScanFrom(constantPool[..], 0, INITIAL, Caller(classSignature, methodName), TEXTS)
  {
    ghost var b, k := constantPool[..], TEXTS;
    var c := Caller(classSignature, methodName);
    ghost var total := ScanFrom(b, 0, INITIAL, c, k).value;
    ProgressStart(b, c, k);
    var foundAnnotation := false;
    var value: Option<string> := None;
    printed := [];
    var i := 0;
    while i < constantPool.Length
      invariant Progress(b, i, Scanner(foundAnnotation, value), c, k, printed, total)
      decreases constantPool.Length - i
    {
      ghost var s := Scanner(foundAnnotation, value);
      ProgressStep(b, i, s, c, k, printed, total);
      ghost var e := EntryAt(b, i).value;
      ghost var r := React(s, e, c, k);
      ghost var next := i + e.size;
      var out: seq<Report>;
      foundAnnotation, value, out, i := VisitEntry(constantPool, i, foundAnnotation, value, c);
      assert Scanner(foundAnnotation, value) == r.0 && out == r.1 && i == next;
      printed := printed + out;
      assert Progress(b, next, r.0, c, k, printed, total);
    }
    ProgressDone(b, i, Scanner(foundAnnotation, value), c, k, printed, total);
  }

  // ---------------------------------------------------------------------
  // Cross-check with the injector's walker

  /** Off the Utf8 tag, the agent's cursor moves as far as the injector's
      walker does for every tag except 17 (CONSTANT_Dynamic), which the
      agent does not know and steps over one byte at a time. */
  lemma AdvanceMatchesInjector(tag: byte)
    requires tag != CONSTANT_UTF8
    ensures Advance(tag) == ConstantPool.FixedEntrySize(tag) <==> tag != 17
  {
  }

  /** The agent's entries and the injector walker's entries name the same
      offsets, tags and sizes, one for one. */
  ghost predicate SameVisits(ns: seq<Entry>, es: seq<ConstantPool.Entry>)
  {
    && |ns| == |es|
    && forall j :: 0 <= j < |es| ==>
         ns[j].offset == es[j].offset && ns[j].tag == es[j].step.tag && ns[j].size == es[j].step.size
  }

  lemma SameVisitsCons(n: Entry, ns: seq<Entry>, e: ConstantPool.Entry, es: seq<ConstantPool.Entry>)
    requires SameVisits(ns, es)
    requires n.offset == e.offset && n.tag == e.step.tag && n.size == e.step.size
    ensures SameVisits([n] + ns, [e] + es)
  {
    var ns', es' := [n] + ns, [e] + es;
    forall j | 0 <= j < |es'|
      ensures ns'[j].offset == es'[j].offset && ns'[j].tag == es'[j].step.tag && ns'[j].size == es'[j].step.size
    {
      if j > 0 { assert ns'[j] == ns[j - 1] && es'[j] == es[j - 1]; }
    }
  }

  /** No entry of the list is a CONSTANT_Dynamic one. */
  ghost predicate NoDynamic(es: seq<ConstantPool.Entry>)
  {
    forall j :: 0 <= j < |es| ==> es[j].step.tag != 17
  }

  lemma NoDynamicTail(e: ConstantPool.Entry, es: seq<ConstantPool.Entry>)
    requires NoDynamic([e] + es)
    ensures e.step.tag != 17 && NoDynamic(es)
  {
    assert ([e] + es)[0] == e;
    forall j | 0 <= j < |es| ensures es[j].step.tag != 17 {
      assert es[j] == ([e] + es)[j + 1];
    }
  }

  /** Where the walker takes a step other than CONSTANT_Dynamic, the agent
      reads an entry of the same size. */
  lemma SameStep(b: seq<byte>, pos: nat, st: ConstantPool.Step)
    requires ConstantPool.StepAt(b, pos) == Some(st) && st.tag != 17
    ensures pos < |b| && EntryAt(b, pos).Some?
    ensures EntryAt(b, pos).value == Entry(pos, st.tag, st.size, EntryAt(b, pos).value.text)
  {
    if b[pos] != CONSTANT_UTF8 {
      AdvanceMatchesInjector(b[pos]);
    }
  }

  /** On a pool the injector's walker covers exactly, with no CONSTANT_Dynamic
      entry, the agent visits the same entries: same offsets, tags and sizes. */
  lemma {:induction false} EntriesMatchInjectorWalk(b: seq<byte>, pos: nat, index: nat, remaining: int)
    requires ConstantPool.Walk(b, pos, index, remaining).Some?
    requires ConstantPool.SkipPool(b, pos, remaining) == Some(|b|)
    requires NoDynamic(ConstantPool.Walk(b, pos, index, remaining).value)
    ensures Entries(b, pos).Some?
    ensures SameVisits(Entries(b, pos).value, ConstantPool.Walk(b, pos, index, remaining).value)
    decreases remaining
  {
    if remaining > 0 {
      var st := ConstantPool.StepAt(b, pos).value;
      ConstantPool.WalkStep(b, pos, index, remaining, st);
      var rest := ConstantPool.Walk(b, pos + st.size, index + st.slots, remaining - st.slots).value;
      var head := ConstantPool.Entry(pos, st, index);
      assert ConstantPool.Walk(b, pos, index, remaining).value == [head] + rest;
      NoDynamicTail(head, rest);
      SameStep(b, pos, st);
      EntriesMatchInjectorWalk(b, pos + st.size, index + st.slots, remaining - st.slots);
      var e := EntryAt(b, pos).value;
      EntriesStep(b, pos);
      SameVisitsCons(e, Entries(b, pos + st.size).value, head, rest);
    } else {
      assert pos == |b|;
    }
  }

  /** A CONSTANT_Dynamic entry throws the two walks apart: the injector
      steps over its five bytes as one entry, the agent reads each of them
      as a tag of its own. */
  lemma DynamicEntryDiverges(b: seq<byte>)
    requires b == [17, 0, 0, 0, 0]
    ensures ConstantPool.Walk(b, 0, 1, 1)
            == Some([ConstantPool.Entry(0, ConstantPool.Step(17, 5, 1), 1)])
    ensures var ns := Entries(b, 0);
      && ns.Some? && |ns.value| == 5
      && forall j :: 0 <= j < 5 ==> ns.value[j].offset == j
  {
    assert ConstantPool.StepAt(b, 0) == Some(ConstantPool.Step(17, 5, 1));
    assert ConstantPool.Walk(b, 5, 2, 0) == Some([]);
    assert [ConstantPool.Entry(0, ConstantPool.Step(17, 5, 1), 1)] + [] == [ConstantPool.Entry(0, ConstantPool.Step(17, 5, 1), 1)];
    assert Advance(0) == 1 && Advance(17) == 1;
    var e0, e1, e2, e3, e4 := Entry(0, 17, 1, []), Entry(1, 0, 1, []), Entry(2, 0, 1, []), Entry(3, 0, 1, []), Entry(4, 0, 1, []);
    assert EntryAt(b, 4) == Some(e4) && EntryAt(b, 3) == Some(e3) && EntryAt(b, 2) == Some(e2);
    assert EntryAt(b, 1) == Some(e1) && EntryAt(b, 0) == Some(e0);
    assert Entries(b, 5) == Some([]);
    assert Entries(b, 4) == Some([EntryAt(b, 4).value] + Entries(b, 4 + EntryAt(b, 4).value.size).value);
    assert [e4] + [] == [e4];
    assert Entries(b, 4) == Some([e4]);
    assert [e3] + [e4] == [e3, e4];
    assert Entries(b, 3) == Some([e3, e4]);
    assert [e2] + [e3, e4] == [e2, e3, e4];
    assert Entries(b, 2) == Some([e2, e3, e4]);
    assert [e1] + [e2, e3, e4] == [e1, e2, e3, e4];
    assert Entries(b, 1) == Some([e1, e2, e3, e4]);
    assert [e0] + [e1, e2, e3, e4] == [e0, e1, e2, e3, e4];
    assert Entries(b, 0) == Some([e0, e1, e2, e3, e4]);
  }

  // ---------------------------------------------------------------------
  // The key/value state machine

  /** The annotation's element texts in pool order: the Utf8 entries, the
      skipped "isDirectDependency" name left out. */
  function Elements(es: seq<Entry>, k: Texts): seq<string>
  {
    if es == [] then [] else Element(es[0], k) + Elements(es[1..], k)
  }

  /** The text one entry contributes to the element texts. */
  function Element(e: Entry, k: Texts): seq<string>
  {
    if e.tag == CONSTANT_UTF8 && e.text != k.skippedKey then [e.text] else []
  }

  /** Texts taken two at a time as "key: value"; an odd last one stays pending. */
  function Pairs(ts: seq<string>): seq<Report>
  {
    if |ts| < 2 then [] else [Pair(ts[0], ts[1])] + Pairs(ts[2..])
  }

  function Pending(v: Option<string>): seq<string>
  {
    if v.Some? then [v.value] else []
  }

  /** Utf8 entries holding none of the marker and attribute-name texts. */
  predicate Plain(es: seq<Entry>, k: Texts)
  {
    forall j :: 0 <= j < |es| ==>
      es[j].tag == CONSTANT_UTF8 ==> es[j].text != k.marker && es[j].text != k.rvaName
  }

  /** Dropping the first entry keeps a list plain and of known tags. */
  lemma PlainTail(es: seq<Entry>, k: Texts)
    requires es != [] && Plain(es, k)
    requires forall j :: 0 <= j < |es| ==> Known(es[j].tag)
    ensures Plain(es[1..], k) && Known(es[0].tag)
    ensures es[0].tag == CONSTANT_UTF8 ==> es[0].text != k.marker && es[0].text != k.rvaName
    ensures forall j :: 0 <= j < |es| - 1 ==> Known(es[1..][j].tag)
  {
    forall j | 0 <= j < |es| - 1
      ensures es[1..][j].tag == CONSTANT_UTF8 ==> es[1..][j].text != k.marker && es[1..][j].text != k.rvaName
      ensures Known(es[1..][j].tag)
    {
      assert es[1..][j] == es[j + 1];
    }
  }

  /** Once an annotation is found, the following element texts (the
      "isDirectDependency" name aside) alternate between key and value:
      each second one prints a pair with the one stored before it. Known
      non-Utf8 entries in between change nothing. */
  lemma {:induction false} ElementsPairUp(es: seq<Entry>, v: Option<string>, c: Caller, k: Texts)
    requires Plain(es, k)
    requires forall j :: 0 <= j < |es| ==> Known(es[j].tag)
    ensures Run(es, Scanner(true, v), c, k) == Pairs(Pending(v) + Elements(es, k))
  {
    if es != [] {
      var e, tail := es[0], Elements(es[1..], k);
      PlainTail(es, k);
      var r := React(Scanner(true, v), e, c, k);
      PairStep(e, v, c, k, tail);
      ElementsPairUp(es[1..], r.0.value, c, k);
      assert Run(es, Scanner(true, v), c, k) == r.1 + Run(es[1..], r.0, c, k);
      assert Elements(es, k) == Element(e, k) + tail;
      Associative(Pending(v), Element(e, k), tail);
    }
  }

  /** One entry after the marker: a stored key and a text make a pair, a
      text without a key becomes the key, anything else changes nothing. */
  lemma PairStep(e: Entry, v: Option<string>, c: Caller, k: Texts, rest: seq<string>)
    requires Known(e.tag)
    requires e.tag == CONSTANT_UTF8 ==> e.text != k.marker && e.text != k.rvaName
    ensures var r := React(Scanner(true, v), e, c, k);
      && r.0 == Scanner(true, r.0.value)
      && r.1 + Pairs(Pending(r.0.value) + rest) == Pairs(Pending(v) + Element(e, k) + rest)
  {
    var r := React(Scanner(true, v), e, c, k);
    if e.tag == CONSTANT_UTF8 && e.text != k.skippedKey {
      if v.Some? {
        var ts := [v.value, e.text] + rest;
        assert Pending(v) + Element(e, k) + rest == ts;
        assert ts[2..] == Pending(r.0.value) + rest;
      } else {
        assert Pending(v) + Element(e, k) + rest == Pending(r.0.value) + rest;
      }
    } else {
      assert Pending(v) + Element(e, k) + rest == Pending(v) + rest;
    }
  }

  /** Before any marker, nothing but unknown-tag lines is written. */
  lemma {:induction false} NoMarkerNoPairs(es: seq<Entry>, v: Option<string>, c: Caller, k: Texts)
    requires forall j :: 0 <= j < |es| ==> es[j].tag == CONSTANT_UTF8 ==> es[j].text != k.marker
    ensures var out := Run(es, Scanner(false, v), c, k);
            forall j :: 0 <= j < |out| ==> out[j].UnknownTag?
  {
    if es != [] {
      forall j | 0 <= j < |es| - 1 ensures es[1..][j].tag == CONSTANT_UTF8 ==> es[1..][j].text != k.marker {
        assert es[1..][j] == es[j + 1];
      }
      NoMarkerNoPairs(es[1..], v, c, k);
      var (s', out) := React(Scanner(false, v), es[0], c, k);
      assert s' == Scanner(false, v);
      var all := Run(es, Scanner(false, v), c, k);
      assert all == out + Run(es[1..], s', c, k);
      forall j | 0 <= j < |all| ensures all[j].UnknownTag? {
        if j >= |out| { assert all[j] == Run(es[1..], s', c, k)[j - |out|]; }
      }
    }
  }

  /** The stored key is not dropped when "RuntimeVisibleAnnotations" clears
      the flag: the next annotation's first element is printed as its value. */
  lemma KeyOutlivesAnnotation(c: Caller)
    ensures Run([Entry(0, 1, 1, MARKER), Entry(1, 1, 1, "k"), Entry(2, 1, 1, RVA_NAME),
                 Entry(3, 1, 1, MARKER), Entry(4, 1, 1, "v")], INITIAL, c, TEXTS)
            == [FoundAnnotation(MARKER, c.classSignature, c.methodName),
                FoundAnnotation(MARKER, c.classSignature, c.methodName),
                Pair("k", "v")]
  {
    var es := [Entry(0, 1, 1, MARKER), Entry(1, 1, 1, "k"), Entry(2, 1, 1, RVA_NAME),
               Entry(3, 1, 1, MARKER), Entry(4, 1, 1, "v")];
    assert "k" != MARKER && "k" != RVA_NAME && "k" != SKIPPED_KEY;
    assert "v" != MARKER && "v" != RVA_NAME && "v" != SKIPPED_KEY;
    assert RVA_NAME != MARKER;
    var s1 := Scanner(true, None);
    var s2 := Scanner(true, Some("k"));
    var s3 := Scanner(false, Some("k"));
    var s4 := Scanner(true, Some("k"));
    assert Run(es[5..], s1, c, TEXTS) == [];
    assert Run(es[4..], s4, c, TEXTS) == [Pair("k", "v")] + Run(es[5..], s1, c, TEXTS);
    assert Run(es[3..], s3, c, TEXTS) == [FoundAnnotation(MARKER, c.classSignature, c.methodName)] + Run(es[4..], s4, c, TEXTS);
    assert Run(es[2..], s2, c, TEXTS) == Run(es[3..], s3, c, TEXTS);
    assert Run(es[1..], Scanner(true, None), c, TEXTS) == Run(es[2..], s2, c, TEXTS);
  }
}
