/** MetadataAdder of tld.domain.me.classport.plugin: passes a class through
    the annotation adder into a class writer, inserting a ClassportInfo
    annotation whose elements are read from the metadata instance. */
module PluginMetadataAdder {
  import opened Wrappers
  import opened AnnotationAdder
  import opened JavaStrings

  /** annotationType().getName() of tld.domain.me.classport.commons.ClassportInfo. */
  const ANNOTATION_TYPE_NAME: string := "tld.domain.me.classport.commons.ClassportInfo"

  /** Class.descriptorString() of a class type: 'L', the binary name with
      '.' replaced by '/', and ';'. */
  function Descriptor(typeName: string): (d: string)
    ensures |d| == |typeName| + 2 && d[0] == 'L' && d[|d| - 1] == ';'
    ensures forall i :: 0 <= i < |typeName| ==> d[i + 1] == if typeName[i] == '.' then '/' else typeName[i]
  {
    "L" + ReplaceChar(typeName, '.', '/') + ";"
  }

  /** The adder add(metadata) builds, as written: visitAnnotation compares
      the descriptor it is given with the type's binary name, and the
      inserted annotation carries the type's descriptor. `elements` are the
      declared getters of the annotation type, in the order reflection lists
      them, with the values they return for the metadata; `accepts` whether
      the class writer returns an annotation visitor. */
  function AsWrittenConfig(elements: seq<(string, Option<ElementValue>)>, accepts: bool): Config
  {
    Config(ANNOTATION_TYPE_NAME, Descriptor(ANNOTATION_TYPE_NAME), accepts, elements)
  }

  /** The adder with the presence test comparing descriptors. */
  function CorrectedConfig(elements: seq<(string, Option<ElementValue>)>, accepts: bool): (c: Config)
    ensures c.marker == c.desc
  {
    Config(Descriptor(ANNOTATION_TYPE_NAME), Descriptor(ANNOTATION_TYPE_NAME), accepts, elements)
  }

  /** add(metadata) as written. */
  method AddAsWritten(elements: seq<(string, Option<ElementValue>)>, accepts: bool, events: seq<Event>)
    returns (written: seq<Call>)
    ensures written == Run(AsWrittenConfig(elements, accepts), State(false, []), events).calls
  {
    var adder := new AnnotationAdder(AsWrittenConfig(elements, accepts));
    Accept(adder, events);
    written := adder.calls;
  }

  /** add(metadata) with the presence test comparing descriptors. */
  method Add(elements: seq<(string, Option<ElementValue>)>, accepts: bool, events: seq<Event>)
    returns (written: seq<Call>)
    ensures written == Run(CorrectedConfig(elements, accepts), State(false, []), events).calls
  {
    var adder := new AnnotationAdder(CorrectedConfig(elements, accepts));
    Accept(adder, events);
    written := adder.calls;
  }

  /** A descriptor starts with 'L'; the binary name does not, so no
      descriptor a class reader hands visitAnnotation equals it. */
  lemma NameIsNoDescriptor(typeName: string)
    ensures Descriptor(typeName) != ANNOTATION_TYPE_NAME
  {
    assert ANNOTATION_TYPE_NAME == ['t'] + ANNOTATION_TYPE_NAME[1..];
  }

  /** As written, a class that carries the ClassportInfo annotation already
      gets a second one: this class has the annotation and one method. */
  lemma DuplicateAsWritten(elements: seq<(string, Option<ElementValue>)>, accepts: bool)
    ensures var events := [Header(52, 1, "A", None, Some("java/lang/Object"), []),
                           Annotation(Descriptor(ANNOTATION_TYPE_NAME), true),
                           Method(1, "m", "()V")];
      AddedCount(Run(AsWrittenConfig(elements, accepts), State(false, []), events).calls) == 1
  {
    var events := [Header(52, 1, "A", None, Some("java/lang/Object"), []),
                   Annotation(Descriptor(ANNOTATION_TYPE_NAME), true),
                   Method(1, "m", "()V")];
    var c := AsWrittenConfig(elements, accepts);
    NameIsNoDescriptor(ANNOTATION_TYPE_NAME);
    InsertedIff(c, events);
    assert InsertionPoint(events[2]) && NotMarkedBefore(events, 2, c.marker);
  }

  /** As written, the presence test never fires for an annotation in
      descriptor form, so every class with an inner class, field, method or
      end gets the annotation, whatever annotations it carries. */
  lemma AsWrittenAlwaysInserts(elements: seq<(string, Option<ElementValue>)>, accepts: bool, events: seq<Event>, i: nat)
    requires forall j :: 0 <= j < |events| && events[j].Annotation? ==> events[j].desc != [] && events[j].desc[0] == 'L'
    requires i < |events| && InsertionPoint(events[i])
    ensures AddedCount(Run(AsWrittenConfig(elements, accepts), State(false, []), events).calls) == 1
  {
    var c := AsWrittenConfig(elements, accepts);
    assert ANNOTATION_TYPE_NAME == ['t'] + ANNOTATION_TYPE_NAME[1..];
    assert NotMarkedBefore(events, i, c.marker);
    InsertedIff(c, events);
  }

  /** With descriptors compared, the annotation is inserted at most once,
      and a class read in reader order that carries it already gets none. */
  lemma CorrectedAddsOnce(elements: seq<(string, Option<ElementValue>)>, accepts: bool, events: seq<Event>, j: nat)
    requires ReaderOrder(events)
    requires j < |events| && events[j] == Annotation(Descriptor(ANNOTATION_TYPE_NAME), true)
    ensures AddedCount(Run(CorrectedConfig(elements, accepts), State(false, []), events).calls) == 0
  {
    AlreadyAnnotated(CorrectedConfig(elements, accepts), events, j);
  }
}
