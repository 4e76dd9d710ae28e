/** Walking an existing constant pool the way the class-file injector does
    (JVMS 4.4): one step per entry, sized by its tag, Long and Double taking
    two index slots (JVMS 4.4.5). Covers skipConstantPool,
    findUtf8InConstantPool and getCPString of AnnotationConstantPool. */
module ConstantPool {
  import opened Wrappers
  import opened Bytes
  import opened Buffers

  const CONSTANT_Utf8: byte := 1
  const CONSTANT_Integer: byte := 3
  const CONSTANT_Long: byte := 5
  const CONSTANT_Double: byte := 6

  /** Bytes occupied by an entry that is not Utf8, tag byte included.
      A tag the walkers do not know advances past the tag byte only. */
  function FixedEntrySize(tag: byte): (n: nat)
    ensures 1 <= n <= 9
  {
    if tag == 3 || tag == 4 then 5                                   // Integer, Float
    else if tag == 5 || tag == 6 then 9                              // Long, Double
    else if tag == 7 || tag == 8 || tag == 16 || tag == 19 || tag == 20 then 3
    else if tag == 9 || tag == 10 || tag == 11 || tag == 12 || tag == 17 || tag == 18 then 5
    else if tag == 15 then 4                                         // MethodHandle
    else 1
  }

  /** Index slots an entry takes: two for Long and Double, one otherwise. */
  function Slots(tag: byte): (n: nat)
    ensures n == 1 || n == 2
  {
    if tag == CONSTANT_Long || tag == CONSTANT_Double then 2 else 1
  }

  /** One step of a walk: the entry's tag, its size in bytes, its slots. */
  datatype Step = Step(tag: byte, size: nat, slots: nat)

  /** The step a walker takes at `pos`, or None when one of its reads
      (get, getShort, getInt, getLong, position) would throw. */
  function StepAt(b: seq<byte>, pos: nat): (r: Option<Step>)
    ensures r.Some? ==> pos < |b| && r.value.tag == b[pos] && r.value.size >= 1 && pos + r.value.size <= |b|
    ensures r.Some? ==> pos < |b| && r.value.slots == Slots(b[pos]) && r.value.slots >= 1
    ensures r.Some? && pos < |b| && b[pos] == CONSTANT_Utf8 ==>
              pos + 3 <= |b| && r.value.size == 3 + U2At(b, pos + 1)
    ensures r.Some? && pos < |b| && b[pos] != CONSTANT_Utf8 ==> r.value.size == FixedEntrySize(b[pos])
  {
    if pos >= |b| then None
    else
      var tag := b[pos];
      if tag == CONSTANT_Utf8 then
        if pos + 3 > |b| then None
        else
          var len := U2At(b, pos + 1);
          if pos + 3 + len > |b| then None else Some(Step(tag, 3 + len, 1))
      else if pos + FixedEntrySize(tag) > |b| then None
      else Some(Step(tag, FixedEntrySize(tag), Slots(tag)))
  }

  /** The text bytes of the Utf8 entry found at `pos` by step `st`. */
  function Utf8Text(b: seq<byte>, pos: nat, st: Step): seq<byte>
    requires st.tag == CONSTANT_Utf8 && st.size >= 3 && pos + st.size <= |b|
  {
    b[pos + 3..pos + st.size]
  }

  /** skipConstantPool: the position after `remaining` slots' worth of entries. */
  function SkipPool(b: seq<byte>, pos: nat, remaining: int): (r: Option<nat>)
    ensures r.Some? ==> pos <= r.value <= |b| || (remaining <= 0 && r.value == pos)
    decreases remaining
  {
    if remaining <= 0 then Some(pos)
    else
      match StepAt(b, pos)
      case None => None
      case Some(st) => SkipPool(b, pos + st.size, remaining - st.slots)
  }

  /** findUtf8InConstantPool from `pos` with 1-based slot `index`: the index of
      the first Utf8 entry whose bytes are `target`, -1 when there is none. */
  function FindUtf8From(b: seq<byte>, pos: nat, index: nat, remaining: int, target: seq<byte>): (r: Option<int>)
    ensures r.Some? ==> r.value == -1 || r.value >= index
    decreases remaining
  {
    if remaining <= 0 then Some(-1)
    else
      match StepAt(b, pos)
      case None => None
      case Some(st) =>
        if st.tag == CONSTANT_Utf8 && Utf8Text(b, pos, st) == target then Some(index)
        else FindUtf8From(b, pos + st.size, index + st.slots, remaining - st.slots, target)
  }

  /** getCPString: walk to slot `cpIndex` of the class's pool (which starts at
      byte 10) and return that entry's bytes if it is Utf8, the empty text
      otherwise. Slot 1 (or an index below it) is the pool's first entry, and
      a non-empty text lies after the header and its own tag and length. */
  function CPString(classBytes: seq<byte>, cpIndex: int): (r: Option<seq<byte>>)
    ensures r.Some? ==> |classBytes| >= 10
    ensures cpIndex <= 1 && |classBytes| >= 10 ==> r == TextAt(classBytes, 10)
    ensures r.Some? && r.value != [] ==> |r.value| + 13 <= |classBytes|
  {
    if |classBytes| < 10 then None
    else
      var p :- SkipPool(classBytes, 10, cpIndex - 1);
      TextAt(classBytes, p)
  }

  /** The entry at `p` as getCPString reads it: its tag, then, for a Utf8
      entry, its u2 length and that many bytes; the empty text for any other tag. */
  function TextAt(b: seq<byte>, p: nat): (r: Option<seq<byte>>)
    ensures r.Some? && r.value != [] ==> p + 3 + |r.value| <= |b|
  {
    if p >= |b| then None
    else if b[p] != CONSTANT_Utf8 then Some([])
    else if p + 3 > |b| then None
    else
      var len := U2At(b, p + 1);
      if p + 3 + len > |b| then None
      else Some(b[p + 3..p + 3 + len])
  }

  // ---------------------------------------------------------------------
  // Reference view: the list of entries a walk visits

  /** An entry visited by a walk: where it starts, its step and its 1-based index. */
  datatype Entry = Entry(offset: nat, step: Step, index: nat)

  /** The entries a walk of `remaining` slots visits from `pos`: at most one
      per slot, none when no slot remains. */
  function Walk(b: seq<byte>, pos: nat, index: nat, remaining: int): (r: Option<seq<Entry>>)
    ensures r.Some? ==> |r.value| <= remaining || r.value == []
    decreases remaining
  {
    if remaining <= 0 then Some([])
    else
      match StepAt(b, pos)
      case None => None
      case Some(st) =>
        var rest :- Walk(b, pos + st.size, index + st.slots, remaining - st.slots);
        Some([Entry(pos, st, index)] + rest)
  }

  /** One step of the skip and of the walk. */
  lemma WalkStep(b: seq<byte>, pos: nat, index: nat, remaining: int, st: Step)
    requires remaining > 0 && StepAt(b, pos) == Some(st)
    ensures SkipPool(b, pos, remaining) == SkipPool(b, pos + st.size, remaining - st.slots)
    ensures Walk(b, pos, index, remaining).Some? <==> Walk(b, pos + st.size, index + st.slots, remaining - st.slots).Some?
    ensures Walk(b, pos, index, remaining).Some? ==>
              Walk(b, pos, index, remaining).value
              == [Entry(pos, st, index)] + Walk(b, pos + st.size, index + st.slots, remaining - st.slots).value
  {
  }

  /** The entry is a Utf8 constant holding exactly `target`. */
  predicate IsUtf8Of(b: seq<byte>, e: Entry, target: seq<byte>)
  {
    && e.step.tag == CONSTANT_Utf8
    && 3 <= e.step.size
    && e.offset + e.step.size <= |b|
    && Utf8Text(b, e.offset, e.step) == target
  }

  /** Every visited entry lies inside the buffer, with indices that grow by the
      slots of the entry before. */
  lemma {:induction false} WalkEntriesWellFormed(b: seq<byte>, pos: nat, index: nat, remaining: int)
    requires Walk(b, pos, index, remaining).Some?
    ensures var es := Walk(b, pos, index, remaining).value;
      && (forall j :: 0 <= j < |es| ==> es[j].offset + es[j].step.size <= |b|)
      && (forall j :: 0 <= j < |es| ==> es[j].index >= index)
      && (|es| > 0 ==> es[0].offset == pos && es[0].index == index)
    decreases remaining
  {
    if remaining > 0 {
      var st := StepAt(b, pos).value;
      WalkEntriesWellFormed(b, pos + st.size, index + st.slots, remaining - st.slots);
    }
  }

  /** findUtf8InConstantPool returns the index of the FIRST Utf8 entry equal to
      the target, and -1 exactly when no visited entry is one. */
  lemma {:induction false} FindUtf8IsFirstMatch(b: seq<byte>, pos: nat, index: nat, remaining: int, target: seq<byte>)
    requires Walk(b, pos, index, remaining).Some?
    ensures FindUtf8From(b, pos, index, remaining, target).Some?
    ensures var es := Walk(b, pos, index, remaining).value;
            var r := FindUtf8From(b, pos, index, remaining, target).value;
      r == -1 <==> forall j :: 0 <= j < |es| ==> !IsUtf8Of(b, es[j], target)
    ensures var es := Walk(b, pos, index, remaining).value;
            var r := FindUtf8From(b, pos, index, remaining, target).value;
      r != -1 ==>
        exists j :: 0 <= j < |es| && IsUtf8Of(b, es[j], target) && es[j].index == r
                    && forall k :: 0 <= k < j ==> !IsUtf8Of(b, es[k], target)
    decreases remaining
  {
    var es := Walk(b, pos, index, remaining).value;
    if remaining > 0 {
      var st := StepAt(b, pos).value;
      var rest := Walk(b, pos + st.size, index + st.slots, remaining - st.slots).value;
      assert es == [Entry(pos, st, index)] + rest;
      assert es[1..] == rest;
      if st.tag == CONSTANT_Utf8 && Utf8Text(b, pos, st) == target {
        assert IsUtf8Of(b, es[0], target) && es[0].index == index;
        assert FindUtf8From(b, pos, index, remaining, target) == Some(index);
      } else {
        assert !IsUtf8Of(b, es[0], target);
        FindUtf8IsFirstMatch(b, pos + st.size, index + st.slots, remaining - st.slots, target);
        var r := FindUtf8From(b, pos + st.size, index + st.slots, remaining - st.slots, target);
        assert r.Some? && FindUtf8From(b, pos, index, remaining, target) == r;
        if r.value == -1 {
          NoMatchCons(b, es, rest, target);
        } else {
          FirstMatchCons(b, es, rest, target, r.value);
        }
      }
    }
  }

  /** No match in the entries after a non-matching first entry: no match at all. */
  lemma NoMatchCons(b: seq<byte>, es: seq<Entry>, rest: seq<Entry>, target: seq<byte>)
    requires |es| > 0 && es[1..] == rest && !IsUtf8Of(b, es[0], target)
    requires forall j :: 0 <= j < |rest| ==> !IsUtf8Of(b, rest[j], target)
    ensures forall j :: 0 <= j < |es| ==> !IsUtf8Of(b, es[j], target)
  {
    forall j | 0 <= j < |es| ensures !IsUtf8Of(b, es[j], target) {
      if j > 0 { assert es[j] == rest[j - 1]; }
    }
  }

  /** The first match after a non-matching first entry is the first match
      of the whole list. */
  lemma FirstMatchCons(b: seq<byte>, es: seq<Entry>, rest: seq<Entry>, target: seq<byte>, r: int)
    requires |es| > 0 && es[1..] == rest && !IsUtf8Of(b, es[0], target)
    requires exists j :: 0 <= j < |rest| && IsUtf8Of(b, rest[j], target) && rest[j].index == r
                         && forall k :: 0 <= k < j ==> !IsUtf8Of(b, rest[k], target)
    ensures exists j :: 0 <= j < |es| && IsUtf8Of(b, es[j], target) && es[j].index == r
                        && forall k :: 0 <= k < j ==> !IsUtf8Of(b, es[k], target)
  {
    var j :| 0 <= j < |rest| && IsUtf8Of(b, rest[j], target) && rest[j].index == r
              && forall k :: 0 <= k < j ==> !IsUtf8Of(b, rest[k], target);
    assert es[j + 1] == rest[j];
    forall k | 0 <= k < j + 1 ensures !IsUtf8Of(b, es[k], target) {
      if k > 0 { assert es[k] == rest[k - 1]; }
    }
  }

  /** The walk and the skip succeed together, and the skip ends where the last entry ends. */
  lemma {:induction false} SkipPoolIsWalkEnd(b: seq<byte>, pos: nat, index: nat, remaining: int)
    ensures SkipPool(b, pos, remaining).Some? <==> Walk(b, pos, index, remaining).Some?
    ensures Walk(b, pos, index, remaining).Some? && |Walk(b, pos, index, remaining).value| > 0 ==>
              var es := Walk(b, pos, index, remaining).value;
              SkipPool(b, pos, remaining).value == es[|es| - 1].offset + es[|es| - 1].step.size
    decreases remaining
  {
    if remaining > 0 && StepAt(b, pos).Some? {
      var st := StepAt(b, pos).value;
      var next, left := pos + st.size, remaining - st.slots;
      WalkStep(b, pos, index, remaining, st);
      SkipPoolIsWalkEnd(b, next, index + st.slots, left);
      var w := Walk(b, next, index + st.slots, left);
      if w.Some? {
        var es := [Entry(pos, st, index)] + w.value;
        assert Walk(b, pos, index, remaining).value == es;
        assert SkipPool(b, pos, remaining) == SkipPool(b, next, left);
        if |w.value| > 0 {
          assert es[|es| - 1] == w.value[|w.value| - 1];
          assert SkipPool(b, next, left).value == es[|es| - 1].offset + es[|es| - 1].step.size;
        } else {
          assert left <= 0;
          assert SkipPool(b, next, left) == Some(next);
          assert es[|es| - 1] == Entry(pos, st, index);
        }
      }
    }
  }

  /** A step inside [s, e) is the same step on the slice b[s..e]. */
  lemma StepOnSlice(b: seq<byte>, s: nat, e: nat, pos: nat)
    requires s <= pos && e <= |b|
    requires StepAt(b, pos).Some? && pos + StepAt(b, pos).value.size <= e
    ensures StepAt(b[s..e], pos - s) == StepAt(b, pos)
  {
    var st := StepAt(b, pos).value;
    if b[pos] == CONSTANT_Utf8 {
      assert U2At(b[s..e], pos - s + 1) == U2At(b, pos + 1);
    }
  }

  /** Skipping over the bytes of the pool alone gives the same walk, shifted. */
  lemma {:induction false} SkipPoolOnSlice(b: seq<byte>, s: nat, e: nat, pos: nat, remaining: int)
    requires s <= pos <= e <= |b|
    requires SkipPool(b, pos, remaining) == Some(e)
    ensures SkipPool(b[s..e], pos - s, remaining) == Some(e - s)
    decreases remaining
  {
    if remaining > 0 {
      var st := StepAt(b, pos).value;
      assert pos + st.size <= e by {
        assert SkipPool(b, pos + st.size, remaining - st.slots) == Some(e);
        if remaining - st.slots > 0 {
          assert pos + st.size <= e;
        }
      }
      StepOnSlice(b, s, e, pos);
      SkipPoolOnSlice(b, s, e, pos + st.size, remaining - st.slots);
    }
  }

  /** Searching the copied pool bytes never throws once the pool was skipped. */
  lemma FindInSkippedPoolSucceeds(b: seq<byte>, s: nat, e: nat, remaining: int, target: seq<byte>)
    requires s <= e <= |b|
    requires SkipPool(b, s, remaining) == Some(e)
    ensures FindUtf8From(b[s..e], 0, 1, remaining, target).Some?
  {
    SkipPoolOnSlice(b, s, e, s, remaining);
    SkipPoolIsWalkEnd(b[s..e], 0, 1, remaining);
    FindUtf8IsFirstMatch(b[s..e], 0, 1, remaining, target);
  }

  // ---------------------------------------------------------------------
  // Writing entries: what the walker reads back from appended entries

  /** An entry as it is written: a Utf8 entry's text bytes, or an Integer. */
  datatype PoolEntry = Utf8Bytes(text: seq<byte>) | IntegerValue(value: int)

  /** A Utf8 entry's text must fit its u2 length. */
  predicate EntryFits(e: PoolEntry)
  {
    e.Utf8Bytes? ==> |e.text| < TWO_16
  }

  predicate AllEntriesFit(es: seq<PoolEntry>)
  {
    forall j :: 0 <= j < |es| ==> EntryFits(es[j])
  }

  /** The bytes of one entry: tag 1, u2 length and text for Utf8 (JVMS 4.4.7);
      tag 3 and a big-endian u4 for Integer (JVMS 4.4.4). */
  function EncodePoolEntry(e: PoolEntry): seq<byte>
  {
    match e
    case Utf8Bytes(t) => [CONSTANT_Utf8] + U2(|t|) + t
    case IntegerValue(v) => [CONSTANT_Integer] + U4(v)
  }

  /** The bytes of a list of entries, one after the other. */
  function EncodePool(es: seq<PoolEntry>): seq<byte>
  {
    if es == [] then [] else EncodePoolEntry(es[0]) + EncodePool(es[1..])
  }

  /** Appending an entry appends its bytes. */
  lemma {:induction false} EncodePoolSnoc(es: seq<PoolEntry>, e: PoolEntry)
    ensures EncodePool(es + [e]) == EncodePool(es) + EncodePoolEntry(e)
    decreases |es|
  {
    if es != [] {
      assert (es + [e])[1..] == es[1..] + [e];
      EncodePoolSnoc(es[1..], e);
    }
  }

  lemma AllEntriesFitTail(es: seq<PoolEntry>)
    requires es != [] && AllEntriesFit(es)
    ensures AllEntriesFit(es[1..])
  {
    forall j | 0 <= j < |es| - 1 ensures EntryFits(es[1..][j]) { assert es[1..][j] == es[j + 1]; }
  }

  /** The walker's entries `w` read back `es`: one entry each, with
      consecutive indices from `index`, each Utf8 entry holding its text and
      each Integer entry carrying the Integer tag. */
  predicate ReadsBack(b: seq<byte>, w: seq<Entry>, index: nat, es: seq<PoolEntry>)
  {
    && |w| == |es|
    && forall j :: 0 <= j < |es| ==>
         && w[j].index == index + j
         && (es[j].Utf8Bytes? ==> IsUtf8Of(b, w[j], es[j].text))
         && (es[j].IntegerValue? ==> w[j].step.tag == CONSTANT_Integer)
  }

  /** An encoded entry found at `pos` is one walker step of its own size. */
  lemma EntryStepBack(b: seq<byte>, pos: nat, e: PoolEntry)
    requires EntryFits(e)
    requires pos + |EncodePoolEntry(e)| <= |b| && b[pos..pos + |EncodePoolEntry(e)|] == EncodePoolEntry(e)
    ensures StepAt(b, pos) == Some(Step(b[pos], |EncodePoolEntry(e)|, 1))
    ensures e.Utf8Bytes? ==>
              forall index: nat :: IsUtf8Of(b, Entry(pos, Step(b[pos], |EncodePoolEntry(e)|, 1), index), e.text)
    ensures e.IntegerValue? ==> b[pos] == CONSTANT_Integer
  {
    var enc := EncodePoolEntry(e);
    assert b[pos] == enc[0];
    if e.Utf8Bytes? {
      var t := e.text;
      var head := [CONSTANT_Utf8] + U2(|t|);
      assert enc == head + t;
      SplitSlice(b, pos, head, t);
      SplitSlice(b, pos, [CONSTANT_Utf8], U2(|t|));
      assert U2At(b, pos + 1) == U2At(U2(|t|), 0);
      U2RoundTrip(|t|);
    }
  }

  /** One more entry in front of a walk that reads back the rest. */
  lemma WalkBackCons(b: seq<byte>, pos: nat, index: nat, st: Step, es: seq<PoolEntry>, end: nat)
    requires es != []
    requires StepAt(b, pos) == Some(st) && st.slots == 1
    requires es[0].Utf8Bytes? ==> IsUtf8Of(b, Entry(pos, st, index), es[0].text)
    requires es[0].IntegerValue? ==> st.tag == CONSTANT_Integer
    requires SkipPool(b, pos + st.size, |es| - 1) == Some(end)
    requires Walk(b, pos + st.size, index + 1, |es| - 1).Some?
    requires ReadsBack(b, Walk(b, pos + st.size, index + 1, |es| - 1).value, index + 1, es[1..])
    ensures SkipPool(b, pos, |es|) == Some(end)
    ensures Walk(b, pos, index, |es|).Some?
    ensures ReadsBack(b, Walk(b, pos, index, |es|).value, index, es)
  {
    WalkStep(b, pos, index, |es|, st);
    var w := Walk(b, pos + st.size, index + 1, |es| - 1).value;
    var w' := [Entry(pos, st, index)] + w;
    forall j | 0 <= j < |es|
      ensures w'[j].index == index + j
      ensures es[j].Utf8Bytes? ==> IsUtf8Of(b, w'[j], es[j].text)
      ensures es[j].IntegerValue? ==> w'[j].step.tag == CONSTANT_Integer
    {
      if j > 0 {
        assert w'[j] == w[j - 1] && es[j] == es[1..][j - 1];
      }
    }
  }

  /** Walking over written entries visits one entry per written entry and
      reads back each of them; skipping them ends right after their bytes. */
  lemma {:induction false} EncodedPoolWalksBack(b: seq<byte>, pos: nat, index: nat, es: seq<PoolEntry>, end: nat)
    requires AllEntriesFit(es)
    requires end == pos + |EncodePool(es)| <= |b| && b[pos..end] == EncodePool(es)
    ensures SkipPool(b, pos, |es|) == Some(end)
    ensures Walk(b, pos, index, |es|).Some?
    ensures ReadsBack(b, Walk(b, pos, index, |es|).value, index, es)
    decreases |es|
  {
    if es != [] {
      AllEntriesFitTail(es);
      var enc, encRest := EncodePoolEntry(es[0]), EncodePool(es[1..]);
      assert EncodePool(es) == enc + encRest;
      SplitSlice(b, pos, enc, encRest);
      EntryStepBack(b, pos, es[0]);
      var next := pos + |enc|;
      assert end == next + |encRest| && b[next..end] == encRest;
      EncodedPoolWalksBack(b, next, index + 1, es[1..], end);
      var st := Step(b[pos], |enc|, 1);
      assert pos + st.size == next && |es| - 1 == |es[1..]|;
      var w := Walk(b, next, index + 1, |es[1..]|);
      assert Walk(b, pos + st.size, index + 1, |es| - 1) == w;
      assert ReadsBack(b, w.value, index + 1, es[1..]);
      WalkBackCons(b, pos, index, st, es, end);
    }
  }

  // ---------------------------------------------------------------------
  // The imperative walkers, each proved against the function above

  /** The arms of the tag switch for every tag but Utf8: reads the rest of
      the entry whose tag byte was just read. */
  method SkipFixedEntry(buffer: Cursor, tag: byte) returns (r: Result<()>)
    requires buffer.Valid() && tag != CONSTANT_Utf8
    modifies buffer`pos
    ensures buffer.Valid()
    ensures r.Ok? <==> old(buffer.pos) + FixedEntrySize(tag) - 1 <= |buffer.data|
    ensures r.Ok? ==> buffer.pos == old(buffer.pos) + FixedEntrySize(tag) - 1
  {
    r := Ok(());
    if tag == 3 || tag == 4 {
      var _ :- buffer.GetInt();
    } else if tag == CONSTANT_Long || tag == CONSTANT_Double {
      var _ :- buffer.SkipLong();
    } else if tag == 7 || tag == 8 || tag == 16 || tag == 19 || tag == 20 {
      var _ :- buffer.GetU2();
    } else if tag == 9 || tag == 10 || tag == 11 || tag == 12 || tag == 17 || tag == 18 {
      var _ :- buffer.GetInt();
    } else if tag == 15 {
      var _ :- buffer.Get();
      var _ :- buffer.GetU2();
    }
  }

  /** The tag switch shared by skipConstantPool and getCPString: reads one
      entry (a Utf8 entry's text is skipped by moving the position) and
      returns how many index slots it took. */
  method SkipEntry(buffer: Cursor) returns (r: Result<nat>)
    requires buffer.Valid()
    modifies buffer`pos
    ensures buffer.Valid()
    ensures r.Ok? <==> StepAt(buffer.data, old(buffer.pos)).Some?
    ensures r.Ok? ==> var st := StepAt(buffer.data, old(buffer.pos)).value;
              buffer.pos == old(buffer.pos) + st.size && r.value == st.slots
  {
    var tag :- buffer.Get();
    if tag == CONSTANT_Utf8 {
      var len :- buffer.GetU2();
      var _ :- buffer.SetPosition(buffer.pos + len);
    } else {
      var _ :- SkipFixedEntry(buffer, tag);
    }
    r := Ok(Slots(tag));
  }

  /** skipConstantPool(buffer, count): advances the cursor over `count` slots. */
  method SkipConstantPool(buffer: Cursor, count: int) returns (r: Result<()>)
    requires buffer.Valid()
    modifies buffer`pos
    ensures buffer.Valid()
    ensures r.Ok? <==> SkipPool(buffer.data, old(buffer.pos), count).Some?
    ensures r.Ok? ==> buffer.pos == SkipPool(buffer.data, old(buffer.pos), count).value
  {
    var i := 0;
    while i < count
      invariant buffer.Valid()
      invariant SkipPool(buffer.data, old(buffer.pos), count) == SkipPool(buffer.data, buffer.pos, count - i)
      decreases count - i
    {
      var slots :- SkipEntry(buffer);
      i := i + slots;
    }
    r := Ok(());
  }

  /** One turn of findUtf8InConstantPool's loop: reads one entry, reports
      whether it is a Utf8 entry whose bytes equal the target, and how many
      index slots it took. */
  method ReadEntry(buffer: Cursor, target: seq<byte>) returns (r: Result<(bool, nat)>)
    requires buffer.Valid()
    modifies buffer`pos
    ensures buffer.Valid()
    ensures r.Ok? <==> StepAt(buffer.data, old(buffer.pos)).Some?
    ensures r.Ok? ==> var st := StepAt(buffer.data, old(buffer.pos)).value;
              && buffer.pos == old(buffer.pos) + st.size && r.value.1 == st.slots
              && (r.value.0 <==> st.tag == CONSTANT_Utf8 && Utf8Text(buffer.data, old(buffer.pos), st) == target)
  {
    ghost var p := buffer.pos;
    var tag :- buffer.Get();
    if tag == CONSTANT_Utf8 {
      var len :- buffer.GetU2();
      var utf8Bytes :- buffer.GetBytes(len);
      assert StepAt(buffer.data, p) == Some(Step(tag, 3 + len, 1));
      assert Utf8Text(buffer.data, p, Step(tag, 3 + len, 1)) == utf8Bytes;
      r := Ok((utf8Bytes == target, 1));
    } else {
      var _ :- SkipFixedEntry(buffer, tag);
      assert StepAt(buffer.data, p) == Some(Step(tag, FixedEntrySize(tag), Slots(tag)));
      r := Ok((false, Slots(tag)));
    }
  }

  /** findUtf8InConstantPool(cpData, cpCount, target). */
  method FindUtf8InConstantPool(cpData: seq<byte>, cpCount: int, target: seq<byte>) returns (r: Result<int>)
    ensures Agrees(r, FindUtf8From(cpData, 0, 1, cpCount, target))
  {
    var buffer := new Cursor(cpData);
    var currentIndex := 1;
    var i := 0;
    while i < cpCount
      invariant buffer.Valid() && buffer.data == cpData
      invariant currentIndex == i + 1
      invariant FindUtf8From(cpData, 0, 1, cpCount, target)
                == FindUtf8From(cpData, buffer.pos, currentIndex, cpCount - i, target)
      decreases cpCount - i
    {
      ghost var p := buffer.pos;
      var entry :- ReadEntry(buffer, target);
      var (isTarget, slots) := entry;
      if isTarget {
        return Ok(currentIndex);
      }
      FindUtf8Skip(cpData, p, currentIndex, cpCount - i, target, StepAt(cpData, p).value);
      i := i + slots;
      currentIndex := currentIndex + slots;
    }
    r := Ok(-1);
  }

  /** Past an entry that is not the target, the search goes on from the next one. */
  lemma FindUtf8Skip(b: seq<byte>, pos: nat, index: nat, remaining: int, target: seq<byte>, st: Step)
    requires remaining > 0 && StepAt(b, pos) == Some(st)
    requires !(st.tag == CONSTANT_Utf8 && Utf8Text(b, pos, st) == target)
    ensures FindUtf8From(b, pos, index, remaining, target)
            == FindUtf8From(b, pos + st.size, index + st.slots, remaining - st.slots, target)
  {
  }

  /** getCPString(classBytes, cpIndex). */
  method GetCPString(classBytes: seq<byte>, cpIndex: int) returns (r: Result<seq<byte>>)
    ensures Agrees(r, CPString(classBytes, cpIndex))
  {
    var buffer := new Cursor(classBytes);
    var _ :- buffer.SetPosition(8);
    var cpCount :- buffer.GetU2();
    var i := 1;
    while i < cpIndex
      invariant buffer.Valid() && buffer.data == classBytes && 10 <= |classBytes|
      invariant SkipPool(classBytes, 10, cpIndex - 1) == SkipPool(classBytes, buffer.pos, cpIndex - i)
      decreases cpIndex - i
    {
      var slots :- SkipEntry(buffer);
      i := i + slots;
    }
    r := ReadText(buffer);
  }

  /** The reads at the end of getCPString. */
  method ReadText(buffer: Cursor) returns (r: Result<seq<byte>>)
    requires buffer.Valid()
    modifies buffer`pos
    ensures Agrees(r, TextAt(buffer.data, old(buffer.pos)))
  {
    var tag :- buffer.Get();
    if tag != CONSTANT_Utf8 {
      return Ok([]);
    }
    var len :- buffer.GetU2();
    var bytes :- buffer.GetBytes(len);
    r := Ok(bytes);
  }
}
