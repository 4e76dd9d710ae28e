/** MetadataAdder of tld.domain.me: passes a class through the annotation
    adder into a class writer, inserting the annotation "Classport" with one
    test element. */
module TldMetadataAdder {
  import opened Wrappers
  import opened AnnotationAdder

  /** The descriptor add() hands the adder: it is both the descriptor
      visitAnnotation compares with and the one it inserts. */
  const ANNOTATION_DESC: string := "Classport"
  const TEST_FIELD: string := "testAnnotationField"
  const TEST_VALUE: string := "It works :D"

  /** The adder add() builds. A class writer always returns an annotation
      visitor, and the single element is written directly. */
  const CONFIG: Config := Config(ANNOTATION_DESC, ANNOTATION_DESC, true, [(TEST_FIELD, Some(StringValue(TEST_VALUE)))])

  /** add(): the calls the class writer receives for the class's visit
      calls. */
  method Add(events: seq<Event>) returns (written: seq<Call>)
    ensures written == Run(CONFIG, State(false, []), events).calls
  {
    var adder := new AnnotationAdder(CONFIG);
    Accept(adder, events);
    written := adder.calls;
  }

  /** The inserted annotation is "Classport" with the single element
      testAnnotationField = "It works :D", closed. */
  lemma InsertedAnnotation()
    ensures Insertion(CONFIG)
            == [AddAnnotation("Classport"), PutValue("testAnnotationField", StringValue("It works :D")), CloseAnnotation]
  {
    var elements := CONFIG.elements;
    assert elements[..0] == [];
    assert Emit(elements) == Emitted([PutValue(TEST_FIELD, StringValue(TEST_VALUE))], false);
  }

  /** A class the adder has written carries the annotation, so adding again
      (reading it back in reader order) inserts nothing. */
  lemma AddTwiceAddsOnce(events: seq<Event>, j: nat)
    requires ReaderOrder(events)
    requires j < |events| && events[j] == Annotation(ANNOTATION_DESC, true)
    ensures AddedCount(Run(CONFIG, State(false, []), events).calls) == 0
  {
    AlreadyAnnotated(CONFIG, events, j);
  }
}
