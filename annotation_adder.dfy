/** The AnnotationAdder class visitor of the two MetadataAdder classes: it
    sits between a class reader and a class writer, passes every visit call
    on, raises old class-file versions to 1.5, and inserts one class
    annotation before the first inner class, field, method or the end of the
    class, unless the class already carries that annotation. */
module AnnotationAdder {
  import opened Wrappers
  import opened SeqFacts

  /** Opcodes.V1_5: major version 49, minor version 0. */
  const V1_5: int := 49

  /** The version visit(...) passes on. `version & 0xFF` on a Java int is the
      low byte, which is `version % 256` with Dafny's non-negative remainder.
      A major version below 1.5 becomes 1.5, since the JVM ignores
      annotations below it; any other version is kept. */
  function UpgradedVersion(version: int): (v: int)
    ensures v % 256 >= V1_5
    ensures version % 256 >= V1_5 ==> v == version
    ensures version % 256 < V1_5 ==> v == V1_5
  {
    if version % 256 < V1_5 then V1_5 else version
  }

  /** A value an annotation element getter returns. */
  datatype ElementValue = StringValue(s: string) | BoolValue(b: bool) | StringArray(elems: seq<string>)

  /** A visit call the class reader makes on the adder. */
  datatype Event =
    | Header(version: int, access: int, name: string, signature: Option<string>,
             superName: Option<string>, interfaces: seq<string>)
    | Annotation(desc: string, visible: bool)
    | InnerClass(name: string, outerName: Option<string>, innerName: Option<string>, access: int)
    | Field(access: int, name: string, desc: string)
    | Method(access: int, name: string, desc: string)
    | End
      /** Any call the adder inherits (source, outer class, attributes, ...). */
    | Other(kind: string)

  /** A call the next visitor receives: a passed-on event, the inserted
      annotation, or a call on the annotation visitor it returned. */
  datatype Call =
    | Forward(e: Event)
    | AddAnnotation(desc: string)
    | PutValue(name: string, value: ElementValue)
    | OpenArray(name: string)
    | ArrayElement(elem: string)
    | CloseArray
    | CloseAnnotation

  /** What the adder is built with. `marker` is the descriptor visitAnnotation
      compares with, `desc` the descriptor of the inserted annotation,
      `accepts` whether the next visitor returns an annotation visitor (not
      null), and `elements` the element names and the values their getters
      return, in the order they are read (None: the getter throws). */
  datatype Config = Config(marker: string, desc: string, accepts: bool,
                           elements: seq<(string, Option<ElementValue>)>)

  /** The events before which the adder tries to insert. */
  predicate InsertionPoint(e: Event)
  {
    e.InnerClass? || e.Field? || e.Method? || e.End?
  }

  /** The event shows that the annotation is already there. */
  predicate Marks(e: Event, marker: string)
  {
    e.Annotation? && e.visible && e.desc == marker
  }

  /** The event as the next visitor receives it. */
  function Passed(e: Event): Event
  {
    if e.Header? then e.(version := UpgradedVersion(e.version)) else e
  }

  /** The annotation visitor calls for one element. */
  function ValueCalls(name: string, v: ElementValue): seq<Call>
  {
    if v.StringArray? then [OpenArray(name)] + ArrayCalls(v.elems) + [CloseArray]
    else [PutValue(name, v)]
  }

  function ArrayCalls(elems: seq<string>): (calls: seq<Call>)
    ensures |calls| == |elems|
    ensures forall i :: 0 <= i < |elems| ==> calls[i] == ArrayElement(elems[i])
  {
    if elems == [] then [] else ArrayCalls(elems[..|elems| - 1]) + [ArrayElement(elems[|elems| - 1])]
  }

  /** The element calls of an insertion, and whether a getter threw. */
  datatype Emitted = Emitted(calls: seq<Call>, failed: bool)

  /** The element loop: each element's calls in order; a getter that throws
      ends the loop. */
  function Emit(elements: seq<(string, Option<ElementValue>)>): Emitted
  {
    if elements == [] then Emitted([], false)
    else
      var init := Emit(elements[..|elements| - 1]);
      var last := elements[|elements| - 1];
      if init.failed then init
      else if last.1.None? then Emitted(init.calls, true)
      else Emitted(init.calls + ValueCalls(last.0, last.1.value), false)
  }

  /** The calls of one insertion: the annotation, then, when the next visitor
      returns an annotation visitor, its elements and, unless a getter threw,
      its end. */
  function Insertion(c: Config): seq<Call>
  {
    [AddAnnotation(c.desc)]
    + if !c.accepts then []
      else var em := Emit(c.elements); if em.failed then em.calls else em.calls + [CloseAnnotation]
  }

  /** The adder's state: its flag and the calls the next visitor has had. */
  datatype State = State(present: bool, calls: seq<Call>)

  /** addAnnotation(): insert unless the flag is set; then set it. */
  function Added(c: Config, st: State): (r: State)
    ensures r.present
  {
    if st.present then st else State(true, st.calls + Insertion(c))
  }

  /** One visit call: it only appends to the calls already made, at least
      the call it passes on, and never clears the flag. */
  function Step(c: Config, st: State, e: Event): (r: State)
    ensures st.calls <= r.calls && |r.calls| > |st.calls|
    ensures st.present ==> r.present
  {
    if e.Annotation? then State(st.present || Marks(e, c.marker), st.calls + [Forward(e)])
    else if InsertionPoint(e) then
      var s := Added(c, st);
      State(s.present, s.calls + [Forward(e)])
    else State(st.present, st.calls + [Forward(Passed(e))])
  }

  /** The visit calls of one class, in order: the calls made before are
      kept, at least one call per event is added, and a set flag stays set. */
  function Run(c: Config, st: State, events: seq<Event>): (r: State)
    ensures st.calls <= r.calls && |r.calls| >= |st.calls| + |events|
    ensures st.present ==> r.present
  {
    if events == [] then st else Step(c, Run(c, st, events[..|events| - 1]), events[|events| - 1])
  }

  class AnnotationAdder {
    const config: Config
    var isAnnotationPresent: bool
    /** The calls the next visitor has received, in order. */
    var calls: seq<Call>

    constructor (config: Config)
      ensures this.config == config && !isAnnotationPresent && calls == []
    {
      this.config := config;
      isAnnotationPresent := false;
      calls := [];
    }

    function Snapshot(): State
      reads this
    {
      State(isAnnotationPresent, calls)
    }

    method Visit(version: int, access: int, name: string, signature: Option<string>,
                 superName: Option<string>, interfaces: seq<string>)
      modifies this
      ensures Snapshot() == Step(config, old(Snapshot()), Header(version, access, name, signature, superName, interfaces))
    {
      var v := if version % 256 < V1_5 then V1_5 else version;
      calls := calls + [Forward(Header(v, access, name, signature, superName, interfaces))];
    }

    method VisitAnnotation(desc: string, visible: bool)
      modifies this
      ensures Snapshot() == Step(config, old(Snapshot()), Annotation(desc, visible))
    {
      if visible && desc == config.marker {
        isAnnotationPresent := true;
      }
      calls := calls + [Forward(Annotation(desc, visible))];
    }

    method VisitInnerClass(name: string, outerName: Option<string>, innerName: Option<string>, access: int)
      modifies this
      ensures Snapshot() == Step(config, old(Snapshot()), InnerClass(name, outerName, innerName, access))
    {
      AddAnnotationCalls();
      calls := calls + [Forward(InnerClass(name, outerName, innerName, access))];
    }

    method VisitField(access: int, name: string, desc: string)
      modifies this
      ensures Snapshot() == Step(config, old(Snapshot()), Field(access, name, desc))
    {
      AddAnnotationCalls();
      calls := calls + [Forward(Field(access, name, desc))];
    }

    method VisitMethod(access: int, name: string, desc: string)
      modifies this
      ensures Snapshot() == Step(config, old(Snapshot()), Method(access, name, desc))
    {
      AddAnnotationCalls();
      calls := calls + [Forward(Method(access, name, desc))];
    }

    method VisitEnd()
      modifies this
      ensures Snapshot() == Step(config, old(Snapshot()), End)
    {
      AddAnnotationCalls();
      calls := calls + [Forward(End)];
    }

    /** An inherited visit call: passed on unchanged. */
    method VisitOther(kind: string)
      modifies this
      ensures Snapshot() == Step(config, old(Snapshot()), Other(kind))
    {
      calls := calls + [Forward(Other(kind))];
    }

    /** addAnnotation(). */
    method AddAnnotationCalls()
      modifies this
      ensures Snapshot() == Added(config, old(Snapshot()))
    {
      if !isAnnotationPresent {
        ghost var calls0 := calls;
        calls := calls + [AddAnnotation(config.desc)];
        if config.accepts {
          var failed := EmitElements();
          ghost var em := Emit(config.elements);
          if !failed {
            calls := calls + [CloseAnnotation];
            AppendThree(calls0, [AddAnnotation(config.desc)], em.calls, [CloseAnnotation]);
          } else {
            Associative(calls0, [AddAnnotation(config.desc)], em.calls);
          }
        }
        isAnnotationPresent := true;
      }
    }

    /** The loop over the element getters; an exception from a getter is
        caught, reported, and ends the loop. */
    method EmitElements() returns (failed: bool)
      modifies this
      ensures calls == old(calls) + Emit(config.elements).calls
      ensures failed == Emit(config.elements).failed
      ensures isAnnotationPresent == old(isAnnotationPresent)
    {
      var elements := config.elements;
      ghost var calls0 := calls;
      failed := false;
      var i := 0;
      while i < |elements| && !failed
        invariant 0 <= i <= |elements|
        invariant calls == calls0 + Emit(elements[..i]).calls && failed == Emit(elements[..i]).failed
        invariant isAnnotationPresent == old(isAnnotationPresent)
      {
        EmitSnoc(elements, i);
        var (name, val) := elements[i];
        if val.None? {
          failed := true;
        } else {
          EmitValue(name, val.value);
          Associative(calls0, Emit(elements[..i]).calls, ValueCalls(name, val.value));
        }
        i := i + 1;
      }
      if !failed {
        assert elements[..i] == elements;
      } else {
        EmitStopsAtFailure(elements, i);
      }
    }

    /** One element: a String[] as an array of its strings, anything else as
        one named value. */
    method EmitValue(name: string, v: ElementValue)
      modifies this
      ensures calls == old(calls) + ValueCalls(name, v)
      ensures isAnnotationPresent == old(isAnnotationPresent)
    {
      if v.StringArray? {
        ghost var calls0 := calls;
        calls := calls + [OpenArray(name)];
        EmitArray(v.elems);
        calls := calls + [CloseArray];
        AppendThree(calls0, [OpenArray(name)], ArrayCalls(v.elems), [CloseArray]);
      } else {
        calls := calls + [PutValue(name, v)];
      }
    }

    /** The strings of a String[] element, one call each. */
    method EmitArray(elems: seq<string>)
      modifies this
      ensures calls == old(calls) + ArrayCalls(elems)
      ensures isAnnotationPresent == old(isAnnotationPresent)
    {
      ghost var calls0 := calls;
      var k := 0;
      while k < |elems|
        invariant 0 <= k <= |elems|
        invariant calls == calls0 + ArrayCalls(elems[..k])
        invariant isAnnotationPresent == old(isAnnotationPresent)
      {
        assert elems[..k + 1][..k] == elems[..k];
        assert ArrayCalls(elems[..k + 1]) == ArrayCalls(elems[..k]) + [ArrayElement(elems[k])];
        calls := calls + [ArrayElement(elems[k])];
        Associative(calls0, ArrayCalls(elems[..k]), [ArrayElement(elems[k])]);
        k := k + 1;
      }
      assert elems[..k] == elems;
    }
  }

  /** One more element after a loop that has not failed. */
  lemma EmitSnoc(elements: seq<(string, Option<ElementValue>)>, i: nat)
    requires i < |elements| && !Emit(elements[..i]).failed
    ensures elements[i].1.None? ==> Emit(elements[..i + 1]) == Emitted(Emit(elements[..i]).calls, true)
    ensures elements[i].1.Some? ==>
              Emit(elements[..i + 1]) == Emitted(Emit(elements[..i]).calls + ValueCalls(elements[i].0, elements[i].1.value), false)
  {
    assert elements[..i + 1][..i] == elements[..i];
  }

  /** Once a getter has thrown, later elements add nothing. */
  lemma {:induction false} EmitStopsAtFailure(elements: seq<(string, Option<ElementValue>)>, i: nat)
    requires i <= |elements| && Emit(elements[..i]).failed
    ensures Emit(elements) == Emit(elements[..i])
    decreases |elements| - i
  {
    if i < |elements| {
      assert elements[..i + 1][..i] == elements[..i];
      EmitStopsAtFailure(elements, i + 1);
    } else {
      assert elements[..i] == elements;
    }
  }

  /** ClassReader.accept: the reader makes one visit call per event, in order. */
  method Accept(adder: AnnotationAdder, events: seq<Event>)
    modifies adder
    ensures adder.Snapshot() == Run(adder.config, old(adder.Snapshot()), events)
  {
    ghost var st0 := adder.Snapshot();
    var i := 0;
    while i < |events|
      invariant 0 <= i <= |events|
      invariant adder.Snapshot() == Run(adder.config, st0, events[..i])
    {
      assert events[..i + 1][..i] == events[..i];
      match events[i] {
        case Header(version, access, name, signature, superName, interfaces) =>
          adder.Visit(version, access, name, signature, superName, interfaces);
        case Annotation(desc, visible) => adder.VisitAnnotation(desc, visible);
        case InnerClass(name, outerName, innerName, access) => adder.VisitInnerClass(name, outerName, innerName, access);
        case Field(access, name, desc) => adder.VisitField(access, name, desc);
        case Method(access, name, desc) => adder.VisitMethod(access, name, desc);
        case End => adder.VisitEnd();
        case Other(kind) => adder.VisitOther(kind);
      }
      i := i + 1;
    }
    assert events[..i] == events;
  }

  // ---------------------------------------------------------------------
  // Properties of a run

  /** The passed-on events among the calls. */
  function Forwarded(calls: seq<Call>): (r: seq<Event>)
    ensures |r| <= |calls|
  {
    if calls == [] then []
    else
      var init := Forwarded(calls[..|calls| - 1]);
      if calls[|calls| - 1].Forward? then init + [calls[|calls| - 1].e] else init
  }

  lemma {:induction false} ForwardedConcat(a: seq<Call>, b: seq<Call>)
    ensures Forwarded(a + b) == Forwarded(a) + Forwarded(b)
  {
    if b == [] {
      assert a + b == a;
    } else {
      assert (a + b)[..|a + b| - 1] == a + b[..|b| - 1];
      assert (a + b)[|a + b| - 1] == b[|b| - 1];
      ForwardedConcat(a, b[..|b| - 1]);
    }
  }

  /** An insertion passes nothing on and adds one annotation. */
  lemma InsertionCalls(c: Config)
    ensures Forwarded(Insertion(c)) == []
    ensures AddedCount(Insertion(c)) == 1
  {
    var head := [AddAnnotation(c.desc)];
    assert Forwarded(head) == [] && AddedCount(head) == 1 by {
      assert head[..0] == [];
    }
    if c.accepts {
      var em := Emit(c.elements);
      EmitCalls(c.elements);
      ForwardedConcat(head, em.calls);
      AddedCountConcat(head, em.calls);
      if !em.failed {
        NoneForwarded([CloseAnnotation]);
        ForwardedConcat(head + em.calls, [CloseAnnotation]);
        AddedCountConcat(head + em.calls, [CloseAnnotation]);
        assert Insertion(c) == head + em.calls + [CloseAnnotation];
      } else {
        assert Insertion(c) == head + em.calls;
      }
    } else {
      assert Insertion(c) == head;
    }
  }

  /** The element calls pass nothing on and add no annotation. */
  lemma {:induction false} EmitCalls(elements: seq<(string, Option<ElementValue>)>)
    ensures Forwarded(Emit(elements).calls) == []
    ensures AddedCount(Emit(elements).calls) == 0
  {
    if elements != [] {
      var init := Emit(elements[..|elements| - 1]);
      EmitCalls(elements[..|elements| - 1]);
      var last := elements[|elements| - 1];
      if !init.failed && last.1.Some? {
        var vc := ValueCalls(last.0, last.1.value);
        NoneForwarded(vc);
        ForwardedConcat(init.calls, vc);
        AddedCountConcat(init.calls, vc);
      }
    }
  }

  lemma {:induction false} NoneForwarded(calls: seq<Call>)
    requires forall k :: 0 <= k < |calls| ==> !calls[k].Forward? && !calls[k].AddAnnotation?
    ensures Forwarded(calls) == [] && AddedCount(calls) == 0
  {
    if calls != [] {
      NoneForwarded(calls[..|calls| - 1]);
    }
  }

  /** The events as the next visitor receives them. */
  function PassedAll(events: seq<Event>): (r: seq<Event>)
    ensures |r| == |events|
    ensures forall i :: 0 <= i < |events| ==> r[i] == Passed(events[i])
  {
    if events == [] then [] else PassedAll(events[..|events| - 1]) + [Passed(events[|events| - 1])]
  }

  /** One visit call passes on exactly its event. */
  lemma StepForwards(c: Config, st: State, e: Event)
    ensures Forwarded(Step(c, st, e).calls) == Forwarded(st.calls) + [Passed(e)]
  {
    if InsertionPoint(e) && !st.present {
      InsertionCalls(c);
      ForwardedConcat(st.calls, Insertion(c));
      ForwardedConcat(st.calls + Insertion(c), [Forward(e)]);
    } else {
      var last := Step(c, st, e).calls[|Step(c, st, e).calls| - 1];
      assert Step(c, st, e).calls == st.calls + [last];
      ForwardedConcat(st.calls, [last]);
      assert [last][..0] == [];
    }
  }

  /** Every visit call is passed on, in order, with only the version raised:
      the adder drops, reorders and duplicates nothing. */
  lemma {:induction false} ForwardedInOrder(c: Config, st: State, events: seq<Event>)
    ensures Forwarded(Run(c, st, events).calls) == Forwarded(st.calls) + PassedAll(events)
  {
    if events == [] {
      assert Forwarded(st.calls) + PassedAll(events) == Forwarded(st.calls);
    } else {
      var init := events[..|events| - 1];
      var e := events[|events| - 1];
      ForwardedInOrder(c, st, init);
      StepForwards(c, Run(c, st, init), e);
    }
  }

  /** The number of inserted annotations among the calls. */
  function AddedCount(calls: seq<Call>): nat
  {
    if calls == [] then 0
    else AddedCount(calls[..|calls| - 1]) + if calls[|calls| - 1].AddAnnotation? then 1 else 0
  }

  lemma {:induction false} AddedCountConcat(a: seq<Call>, b: seq<Call>)
    ensures AddedCount(a + b) == AddedCount(a) + AddedCount(b)
  {
    if b == [] {
      assert a + b == a;
    } else {
      assert (a + b)[..|a + b| - 1] == a + b[..|b| - 1];
      assert (a + b)[|a + b| - 1] == b[|b| - 1];
      AddedCountConcat(a, b[..|b| - 1]);
    }
  }

  /** One step inserts once when it meets an insertion point with the flag
      clear, and otherwise not; the flag, once set, stays set. */
  lemma StepCount(c: Config, st: State, e: Event)
    ensures AddedCount(Step(c, st, e).calls)
            == AddedCount(st.calls) + if InsertionPoint(e) && !st.present then 1 else 0
    ensures Step(c, st, e).present <==> st.present || InsertionPoint(e) || Marks(e, c.marker)
  {
    if InsertionPoint(e) && !st.present {
      InsertionCalls(c);
      AddedCountConcat(st.calls, Insertion(c));
      AddedCountConcat(st.calls + Insertion(c), [Forward(e)]);
      assert [Forward(e)][..0] == [];
    } else {
      var last := Step(c, st, e).calls[|Step(c, st, e).calls| - 1];
      assert Step(c, st, e).calls == st.calls + [last];
      AddedCountConcat(st.calls, [last]);
      assert [last][..0] == [];
    }
  }

  /** The annotation is inserted at most once, and not at all when the flag
      is already set. */
  lemma {:induction false} AtMostOnce(c: Config, st: State, events: seq<Event>)
    requires AddedCount(st.calls) == 0
    ensures AddedCount(Run(c, st, events).calls) <= 1
    ensures st.present ==> AddedCount(Run(c, st, events).calls) == 0
    ensures AddedCount(Run(c, st, events).calls) == 1 ==> Run(c, st, events).present
  {
    if events != [] {
      var init := events[..|events| - 1];
      AtMostOnce(c, st, init);
      PresentStays(c, st, init);
      StepCount(c, Run(c, st, init), events[|events| - 1]);
    }
  }

  /** The flag is never cleared. */
  lemma {:induction false} PresentStays(c: Config, st: State, events: seq<Event>)
    ensures st.present ==> Run(c, st, events).present
  {
    if events != [] {
      PresentStays(c, st, events[..|events| - 1]);
      StepCount(c, Run(c, st, events[..|events| - 1]), events[|events| - 1]);
    }
  }

  /** Some event is an insertion point or the annotation. */
  predicate Decided(events: seq<Event>, marker: string)
  {
    exists i :: 0 <= i < |events| && (InsertionPoint(events[i]) || Marks(events[i], marker))
  }

  /** Some insertion point comes before any visible annotation with the
      marker descriptor. */
  predicate Inserts(events: seq<Event>, marker: string)
  {
    exists i :: 0 <= i < |events| && InsertionPoint(events[i]) && NotMarkedBefore(events, i, marker)
  }

  predicate NotMarkedBefore(events: seq<Event>, i: int, marker: string)
    requires 0 <= i <= |events|
  {
    forall j :: 0 <= j < i ==> !Marks(events[j], marker)
  }

  lemma DecidedSnoc(init: seq<Event>, e: Event, marker: string)
    ensures Decided(init + [e], marker) <==> Decided(init, marker) || InsertionPoint(e) || Marks(e, marker)
  {
    var events := init + [e];
    assert events[|init|] == e;
    if Decided(init, marker) {
      var i :| 0 <= i < |init| && (InsertionPoint(init[i]) || Marks(init[i], marker));
      assert events[i] == init[i];
    }
    if Decided(events, marker) {
      var i :| 0 <= i < |events| && (InsertionPoint(events[i]) || Marks(events[i], marker));
      if i < |init| {
        assert events[i] == init[i];
      }
    }
  }

  lemma InsertsSnoc(init: seq<Event>, e: Event, marker: string)
    ensures Inserts(init, marker) ==> Decided(init, marker)
    ensures Inserts(init + [e], marker) <==> Inserts(init, marker) || (InsertionPoint(e) && !Decided(init, marker))
  {
    var events := init + [e];
    var n := |init|;
    assert events[n] == e;
    assert forall j :: 0 <= j < n ==> events[j] == init[j];
    if Inserts(init, marker) {
      var i :| 0 <= i < n && InsertionPoint(init[i]) && NotMarkedBefore(init, i, marker);
      assert NotMarkedBefore(events, i, marker);
    }
    if InsertionPoint(e) && !Decided(init, marker) {
      assert NotMarkedBefore(events, n, marker);
    }
    if Inserts(events, marker) {
      var i :| 0 <= i < |events| && InsertionPoint(events[i]) && NotMarkedBefore(events, i, marker);
      if i < n {
        assert NotMarkedBefore(init, i, marker);
      } else {
        assert NotMarkedBefore(init, n, marker);
        UnmarkedDecidedInserts(init, marker);
      }
    }
  }

  /** With no marker annotation at all, the first decision is an insertion. */
  lemma UnmarkedDecidedInserts(events: seq<Event>, marker: string)
    requires NotMarkedBefore(events, |events|, marker)
    ensures Decided(events, marker) ==> Inserts(events, marker)
  {
    if Decided(events, marker) {
      var j :| 0 <= j < |events| && (InsertionPoint(events[j]) || Marks(events[j], marker));
      assert NotMarkedBefore(events, j, marker);
    }
  }

  /** From a fresh adder, the annotation is inserted exactly when an inner
      class, field, method or the end comes before any visible annotation
      with the marker descriptor; the flag is set once either has come. */
  lemma {:induction false} InsertedIff(c: Config, events: seq<Event>)
    ensures AddedCount(Run(c, State(false, []), events).calls) == (if Inserts(events, c.marker) then 1 else 0)
    ensures Run(c, State(false, []), events).present <==> Decided(events, c.marker)
  {
    if events != [] {
      var n := |events| - 1;
      var init := events[..n];
      var e := events[n];
      assert events == init + [e];
      InsertedIff(c, init);
      StepCount(c, Run(c, State(false, []), init), e);
      DecidedSnoc(init, e, c.marker);
      InsertsSnoc(init, e, c.marker);
    }
  }

  /** The call passes on an inner class, field, method or the end. */
  predicate ForwardsMember(call: Call)
  {
    call.Forward? && InsertionPoint(call.e)
  }

  /** Every inserted annotation comes before every passed-on inner class,
      field, method and end. */
  predicate AddedFirst(calls: seq<Call>)
  {
    forall k, l :: 0 <= k < |calls| && 0 <= l < |calls| && calls[k].AddAnnotation? && ForwardsMember(calls[l]) ==> k < l
  }

  lemma {:induction false} NoneForwardedAt(calls: seq<Call>)
    requires Forwarded(calls) == []
    ensures forall k :: 0 <= k < |calls| ==> !calls[k].Forward?
  {
    if calls != [] {
      NoneForwardedAt(calls[..|calls| - 1]);
      assert forall k :: 0 <= k < |calls| - 1 ==> calls[..|calls| - 1][k] == calls[k];
    }
  }

  /** Some call passes on an inner class, field, method or the end. */
  predicate MemberForwarded(calls: seq<Call>)
  {
    exists l :: 0 <= l < |calls| && ForwardsMember(calls[l])
  }

  /** From a fresh adder, the annotation is inserted before the class's
      inner classes, fields and methods and before its end, as the class
      file format requires; and once one of those has been passed on, the
      flag is set. */
  lemma {:induction false} AddedBeforeMembers(c: Config, events: seq<Event>)
    ensures AddedFirst(Run(c, State(false, []), events).calls)
    ensures MemberForwarded(Run(c, State(false, []), events).calls) ==> Run(c, State(false, []), events).present
  {
    if events != [] {
      var init := events[..|events| - 1];
      AddedBeforeMembers(c, init);
      StepKeepsAddedFirst(c, Run(c, State(false, []), init), events[|events| - 1]);
    }
  }

  /** One step keeps the inserted annotations first, and keeps the flag set
      once a member has been passed on. */
  lemma StepKeepsAddedFirst(c: Config, s: State, e: Event)
    requires AddedFirst(s.calls)
    requires MemberForwarded(s.calls) ==> s.present
    ensures AddedFirst(Step(c, s, e).calls)
    ensures MemberForwarded(Step(c, s, e).calls) ==> Step(c, s, e).present
  {
    var t := Step(c, s, e);
    StepCount(c, s, e);
    if InsertionPoint(e) && !s.present {
      InsertionCalls(c);
      NoneForwardedAt(Insertion(c));
      StepAppends(s.calls, Insertion(c), Forward(e));
    } else {
      var last := t.calls[|t.calls| - 1];
      assert t.calls == s.calls + [last];
      StepAppends(s.calls, [], last);
      assert s.calls + [] == s.calls;
      if !s.present {
        forall l | 0 <= l < |t.calls| ensures !ForwardsMember(t.calls[l]) {
          if l < |s.calls| { assert t.calls[l] == s.calls[l]; }
        }
      }
    }
  }

  /** Appending an insertion (or nothing) and a passed-on call keeps the
      inserted annotations first, provided no member was passed on before an
      insertion. */
  lemma StepAppends(a: seq<Call>, ins: seq<Call>, f: Call)
    requires AddedFirst(a)
    requires forall k :: 0 <= k < |ins| ==> !ins[k].Forward?
    requires !f.AddAnnotation?
    requires ins != [] ==> forall l :: 0 <= l < |a| ==> !ForwardsMember(a[l])
    ensures AddedFirst(a + ins + [f])
  {
    var w := a + ins + [f];
    forall k, l | 0 <= k < |w| && 0 <= l < |w| && w[k].AddAnnotation? && ForwardsMember(w[l])
      ensures k < l
    {
      if l < |a| {
        assert w[l] == a[l];
        if k < |a| {
          assert w[k] == a[k];
        }
      } else if l == |w| - 1 {
        assert k != |w| - 1;
      }
    }
  }

  /** The order a class reader makes its calls in: every class annotation
      before every inner class, field, method and the end. */
  predicate ReaderOrder(events: seq<Event>)
  {
    forall j, i :: 0 <= j < |events| && 0 <= i < |events| && events[j].Annotation? && InsertionPoint(events[i]) ==> j < i
  }

  /** A class read in reader order that already carries the annotation, as
      visitAnnotation recognises it, gets no second one. */
  lemma AlreadyAnnotated(c: Config, events: seq<Event>, j: nat)
    requires ReaderOrder(events)
    requires j < |events| && Marks(events[j], c.marker)
    ensures AddedCount(Run(c, State(false, []), events).calls) == 0
  {
    InsertedIff(c, events);
  }
}
