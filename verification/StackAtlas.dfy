/** The GC stack atlas: the list of stack maps, ordered by code offset, that the collector searches for the
first map whose lowest offset is not above the return address. */
module StackAtlas {
  import opened Options

  datatype ByteCodeInfo = ByteCodeInfo(caller: int, index: int, doNotProfile: bool, sameReceiver: bool)

  /** Which pinning array each internal pointer belongs to. */
  datatype InternalPointers = InternalPointers(pairs: seq<(nat, int)>, distinctPinningArrays: int)

  /** The contents of a stack map.  `bits` and `monitors` have one bit a slot, rounded up to whole bytes;
      `registers` is the register mask as the set of its bits. */
  datatype Entry = Entry(
    offset: nat,
    slots: nat,
    bits: seq<bv8>,
    monitors: Option<seq<bv8>>,
    registers: set<nat>,
    byteCode: ByteCodeInfo,
    internalPointers: Option<InternalPointers>)

  function MapBytes(slots: nat): nat {
    (slots + 7) / 8
  }

  predicate WellFormed(e: Entry) {
    |e.bits| == MapBytes(e.slots) && (e.monitors.Some? ==> |e.monitors.value| == MapBytes(e.slots))
  }

  // ----- comparing maps

  predicate SameByteCode(a: ByteCodeInfo, b: ByteCodeInfo) {
    a.caller == b.caller && a.index == b.index && a.doNotProfile == b.doNotProfile
  }

  /** What `close` compares before it merges a map with the next one. */
  predicate Same(a: Entry, b: Entry) {
    && MapBytes(a.slots) == MapBytes(b.slots) && a.registers == b.registers && a.bits == b.bits
    && SameByteCode(a.byteCode, b.byteCode)
  }

  /** The pointer count is kept in a byte. */
  predicate IdenticalPointers(a: InternalPointers, b: InternalPointers) {
    && |a.pairs| % 256 == |b.pairs| % 256
    && a.distinctPinningArrays == b.distinctPinningArrays
    && forall p :: p in a.pairs ==> p in b.pairs
  }

  /** What `addStackMap` compares before it folds a new map into an existing one. */
  predicate Mergeable(m: Entry, e: Entry) {
    && m.offset == e.offset && MapBytes(m.slots) == MapBytes(e.slots) && m.bits == e.bits
    && m.monitors == e.monitors
    && m.internalPointers.Some? == e.internalPointers.Some?
    && (m.internalPointers.Some? ==> IdenticalPointers(e.internalPointers.value, m.internalPointers.value))
  }

  // ----- the atlas as a sequence of entries

  predicate Ordered(entries: seq<Entry>) {
    forall i, j :: 0 <= i < j < |entries| ==> entries[j].offset <= entries[i].offset
  }

  /** The first map whose lowest offset is not above `pc`. */
  function Lookup(entries: seq<Entry>, pc: nat): Option<Entry> {
    if entries == [] then None
    else if entries[0].offset <= pc then Some(entries[0])
    else Lookup(entries[1..], pc)
  }

  function Closed(entries: seq<Entry>): seq<Entry>
    decreases |entries|
  {
    if |entries| < 2 then entries
    else if Same(entries[0], entries[1]) then Closed([entries[0].(offset := entries[1].offset)] + entries[2..])
    else [entries[0]] + Closed(entries[1..])
  }

  function Added(entries: seq<Entry>, m: Entry): seq<Entry> {
    if entries == [] then [m]
    else if Mergeable(m, entries[0]) then [entries[0].(registers := entries[0].registers + m.registers)] + entries[1..]
    else if m.offset > entries[0].offset then [m] + entries
    else [entries[0]] + Added(entries[1..], m)
  }

  // ----- close

  /** What `close` does to the first entry: it keeps everything but the offset. */
  lemma {:induction false} ClosedHead(entries: seq<Entry>)
    requires entries != []
    ensures Closed(entries) != [] && Closed(entries)[0].(offset := entries[0].offset) == entries[0]
    decreases |entries|
  {
    if |entries| >= 2 && Same(entries[0], entries[1]) {
      ClosedHead([entries[0].(offset := entries[1].offset)] + entries[2..]);
    }
  }

  /** Merging two equal neighbours changes no answer, because the list is ordered. */
  lemma MergeKeepsLookup(entries: seq<Entry>, pc: nat)
    requires |entries| >= 2 && entries[1].offset <= entries[0].offset && Same(entries[0], entries[1])
    ensures var after, before := Lookup([entries[0].(offset := entries[1].offset)] + entries[2..], pc), Lookup(entries, pc);
      after.Some? == before.Some? && (before.Some? ==> Same(after.value, before.value))
  {
    var merged := [entries[0].(offset := entries[1].offset)] + entries[2..];
    assert merged[1..] == entries[2..] == entries[1..][1..];
  }

  /** Every code offset still gets the slot bits, the register map and the byte-code info it got before. */
  lemma {:induction false} CloseKeepsLookup(entries: seq<Entry>, pc: nat)
    requires Ordered(entries)
    ensures var after, before := Lookup(Closed(entries), pc), Lookup(entries, pc);
      && after.Some? == before.Some?
      && (before.Some? ==>
            && after.value.bits == before.value.bits && after.value.registers == before.value.registers
            && (after.value.slots + 7) / 8 == (before.value.slots + 7) / 8
            && after.value.byteCode.caller == before.value.byteCode.caller
            && after.value.byteCode.index == before.value.byteCode.index
            && after.value.byteCode.doNotProfile == before.value.byteCode.doNotProfile)
    decreases |entries|
  {
    if |entries| >= 2 {
      if Same(entries[0], entries[1]) {
        MergeKeepsLookup(entries, pc);
        CloseKeepsLookup([entries[0].(offset := entries[1].offset)] + entries[2..], pc);
      } else {
        CloseKeepsLookup(entries[1..], pc);
        assert Closed(entries)[1..] == Closed(entries[1..]);
      }
    }
  }

  ghost predicate NoEqualNeighbours(entries: seq<Entry>) {
    forall i :: 0 <= i < |entries| - 1 ==> !Same(entries[i], entries[i + 1])
  }

  lemma {:induction false} CloseSeparates(entries: seq<Entry>)
    ensures NoEqualNeighbours(Closed(entries))
    ensures forall i, j :: 0 <= i && j == i + 1 < |Closed(entries)| ==>
      var a, b := Closed(entries)[i], Closed(entries)[j];
      || a.bits != b.bits || a.registers != b.registers || (a.slots + 7) / 8 != (b.slots + 7) / 8
      || a.byteCode.caller != b.byteCode.caller || a.byteCode.index != b.byteCode.index
      || a.byteCode.doNotProfile != b.byteCode.doNotProfile
    decreases |entries|
  {
    if |entries| >= 2 {
      if Same(entries[0], entries[1]) {
        CloseSeparates([entries[0].(offset := entries[1].offset)] + entries[2..]);
      } else {
        CloseSeparates(entries[1..]);
        ClosedHead(entries[1..]);
      }
    }
  }

  /** A closed list has nothing left to merge, and conversely. */
  lemma {:induction false} ClosedIffSeparate(entries: seq<Entry>)
    ensures Closed(entries) == entries <==> NoEqualNeighbours(entries)
    decreases |entries|
  {
    if Closed(entries) == entries {
      CloseSeparates(entries);
    }
    if NoEqualNeighbours(entries) && |entries| >= 2 {
      assert !Same(entries[0], entries[0 + 1]);
      forall i | 0 <= i < |entries[1..]| - 1
        ensures !Same(entries[1..][i], entries[1..][i + 1])
      {
        assert !Same(entries[i + 1], entries[i + 1 + 1]);
      }
      ClosedIffSeparate(entries[1..]);
    }
  }

  lemma CloseIdempotent(entries: seq<Entry>)
    ensures Closed(Closed(entries)) == Closed(entries)
  {
    CloseSeparates(entries);
    ClosedIffSeparate(Closed(entries));
  }

  ghost predicate HasOffset(entries: seq<Entry>, offset: nat) {
    exists i :: 0 <= i < |entries| && entries[i].offset == offset
  }

  /** Every offset of the closed list was an offset of the list, so the list stays ordered. */
  lemma {:induction false} CloseKeepsOrder(entries: seq<Entry>)
    requires Ordered(entries)
    ensures Ordered(Closed(entries))
    ensures forall x :: HasOffset(Closed(entries), x) ==> HasOffset(entries, x)
    decreases |entries|
  {
    if |entries| >= 2 {
      if Same(entries[0], entries[1]) {
        var merged := [entries[0].(offset := entries[1].offset)] + entries[2..];
        assert forall k :: 0 <= k < |merged| ==> merged[k].offset == entries[k + 1].offset;
        CloseKeepsOrder(merged);
        assert forall x :: HasOffset(merged, x) ==> HasOffset(entries, x);
      } else {
        CloseKeepsOrder(entries[1..]);
        assert forall k :: 0 <= k < |entries[1..]| ==> entries[1..][k] == entries[k + 1];
        OrderedCons(entries[0], Closed(entries[1..]), entries[1..]);
      }
    }
  }

  /** An entry not below any of `rest`, put in front of an ordered list with offsets from `rest`. */
  lemma OrderedCons(first: Entry, tail: seq<Entry>, rest: seq<Entry>)
    requires Ordered(tail) && forall x :: HasOffset(tail, x) ==> HasOffset(rest, x)
    requires forall i :: 0 <= i < |rest| ==> rest[i].offset <= first.offset
    ensures Ordered([first] + tail)
    ensures forall x :: HasOffset([first] + tail, x) ==> x == first.offset || HasOffset(rest, x)
  {
    assert forall i :: 0 <= i < |tail| ==> HasOffset(tail, tail[i].offset);
  }

  /** Live-monitor bits are not compared, so `close` can lose them: the slot holds an object
      in both maps, and a monitored one in the second only. */
  lemma CloseLosesMonitors(code: ByteCodeInfo)
    ensures var first, second := Entry(8, 8, [1], Some([0]), {}, code, None), Entry(4, 8, [1], Some([1]), {}, code, None);
      Lookup([first, second], 4) == Some(second) && Lookup(Closed([first, second]), 4) == Some(first.(offset := 4))
  {
    var first, second := Entry(8, 8, [1], Some([0]), {}, code, None), Entry(4, 8, [1], Some([1]), {}, code, None);
    assert [first, second][1..] == [second];
    assert Closed([first, second]) == Closed([first.(offset := 4)] + [first, second][2..]) == [first.(offset := 4)];
  }

  /** Maps `i` to `j` are equal and map `i` is the first of them. */
  ghost predicate Run(entries: seq<Entry>, i: nat, j: nat)
    requires i < j < |entries|
  {
    (forall k :: i <= k < j ==> Same(entries[k], entries[k + 1])) && (i > 0 ==> !Same(entries[i - 1], entries[i]))
  }

  ghost predicate AgreesAt(entries: seq<Entry>, i: nat, j: nat)
    requires i < j < |entries|
  {
    Run(entries, i, j) && entries[j].offset < entries[j - 1].offset ==> entries[j].monitors == entries[i].monitors
  }

  /** In each run of equal maps, every map a lookup can reach has the live-monitor bits of the first. */
  ghost predicate RunsAgree(entries: seq<Entry>) {
    forall i, j :: 0 <= i < j < |entries| ==> AgreesAt(entries, i, j)
  }

  /** The same, followed along the merge. */
  predicate MergesAgree(entries: seq<Entry>)
    decreases |entries|
  {
    |entries| >= 2 ==>
      if Same(entries[0], entries[1]) then
        && (entries[1].offset < entries[0].offset ==> entries[1].monitors == entries[0].monitors)
        && MergesAgree([entries[0].(offset := entries[1].offset)] + entries[2..])
      else MergesAgree(entries[1..])
  }

  lemma {:induction false} MergesAgreeExactly(entries: seq<Entry>)
    ensures MergesAgree(entries) <==> RunsAgree(entries)
    decreases |entries|
  {
    if |entries| >= 2 {
      if Same(entries[0], entries[1]) {
        MergesAgreeExactly([entries[0].(offset := entries[1].offset)] + entries[2..]);
        RunsOfMerged(entries);
      } else {
        MergesAgreeExactly(entries[1..]);
        RunsOfRest(entries);
      }
    }
  }

  lemma RunsOfMerged(entries: seq<Entry>)
    requires |entries| >= 2 && Same(entries[0], entries[1])
    ensures RunsAgree(entries) <==>
      && (entries[1].offset < entries[0].offset ==> entries[1].monitors == entries[0].monitors)
      && RunsAgree([entries[0].(offset := entries[1].offset)] + entries[2..])
  {
    var merged := [entries[0].(offset := entries[1].offset)] + entries[2..];
    forall i, j | 0 <= i < j < |merged|
      ensures AgreesAt(merged, i, j) <==> AgreesAt(entries, if i == 0 then 0 else i + 1, j + 1)
    {
      MergedRun(entries, i, j);
    }
    assert AgreesAt(entries, 0, 1) <==> (entries[1].offset < entries[0].offset ==> entries[1].monitors == entries[0].monitors) by {
      assert Run(entries, 0, 1);
    }
    forall j | 1 < j < |entries| ensures AgreesAt(entries, 1, j) {
      assert !Run(entries, 1, j);
    }
    hide AgreesAt;
    if RunsAgree(merged) && AgreesAt(entries, 0, 1) {
      forall i, j | 0 <= i < j < |entries| ensures AgreesAt(entries, i, j) {
        if j > 1 && i != 1 {
          assert AgreesAt(merged, if i == 0 then 0 else i - 1, j - 1);
        }
      }
    }
    if RunsAgree(entries) {
      assert AgreesAt(entries, 0, 1);
      forall i, j | 0 <= i < j < |merged| ensures AgreesAt(merged, i, j) {
        assert AgreesAt(entries, if i == 0 then 0 else i + 1, j + 1);
      }
    }
  }

  lemma MergedRun(entries: seq<Entry>, i: nat, j: nat)
    requires |entries| >= 2 && Same(entries[0], entries[1]) && i < j < |entries| - 1
    ensures var merged := [entries[0].(offset := entries[1].offset)] + entries[2..];
      AgreesAt(merged, i, j) <==> AgreesAt(entries, if i == 0 then 0 else i + 1, j + 1)
  {
    var merged, i' := [entries[0].(offset := entries[1].offset)] + entries[2..], if i == 0 then 0 else i + 1;
    assert forall k :: 1 <= k < |merged| ==> merged[k] == entries[k + 1];
    assert forall k :: 0 <= k < |merged| - 1 ==> (Same(merged[k], merged[k + 1]) <==> Same(entries[k + 1], entries[k + 1 + 1]));
    assert Run(merged, i, j) ==> Run(entries, i', j + 1) by {
      forall k | i' <= k < j + 1 && Run(merged, i, j) ensures Same(entries[k], entries[k + 1]) {
        if k > 0 {
          assert Same(merged[k - 1], merged[k - 1 + 1]);
        }
      }
    }
    assert Run(entries, i', j + 1) ==> Run(merged, i, j) by {
      forall k | i <= k < j && Run(entries, i', j + 1) ensures Same(merged[k], merged[k + 1]) {
        assert Same(entries[k + 1], entries[k + 1 + 1]);
      }
    }
  }

  lemma RunsOfRest(entries: seq<Entry>)
    requires |entries| >= 2 && !Same(entries[0], entries[1])
    ensures RunsAgree(entries) <==> RunsAgree(entries[1..])
  {
    var rest := entries[1..];
    forall i, j | 0 <= i < j < |rest| ensures AgreesAt(rest, i, j) <==> AgreesAt(entries, i + 1, j + 1) {
      RestRun(entries, i, j);
    }
    forall j | 0 < j < |entries| ensures AgreesAt(entries, 0, j) {
      assert !Run(entries, 0, j) by {
        assert !Same(entries[0], entries[0 + 1]);
      }
    }
    hide AgreesAt;
    if RunsAgree(rest) {
      forall i, j | 0 <= i < j < |entries| ensures AgreesAt(entries, i, j) {
        if i > 0 {
          assert AgreesAt(rest, i - 1, j - 1);
        }
      }
    }
    if RunsAgree(entries) {
      forall i, j | 0 <= i < j < |rest| ensures AgreesAt(rest, i, j) {
        assert AgreesAt(entries, i + 1, j + 1);
      }
    }
  }

  lemma RestRun(entries: seq<Entry>, i: nat, j: nat)
    requires |entries| >= 2 && !Same(entries[0], entries[1]) && i < j < |entries| - 1
    ensures AgreesAt(entries[1..], i, j) <==> AgreesAt(entries, i + 1, j + 1)
  {
    var rest := entries[1..];
    assert Run(rest, i, j) ==> Run(entries, i + 1, j + 1) by {
      forall k | i + 1 <= k < j + 1 && Run(rest, i, j) ensures Same(entries[k], entries[k + 1]) {
        assert Same(rest[k - 1], rest[k - 1 + 1]);
      }
    }
    assert Run(entries, i + 1, j + 1) ==> Run(rest, i, j) by {
      forall k | i <= k < j && Run(entries, i + 1, j + 1) ensures Same(rest[k], rest[k + 1]) {
        assert Same(entries[k + 1], entries[k + 1 + 1]);
      }
    }
  }

  ghost predicate KeptAt(entries: seq<Entry>, pc: nat) {
    Lookup(entries, pc).Some? ==>
      && Lookup(Closed(entries), pc).Some?
      && Lookup(Closed(entries), pc).value.monitors == Lookup(entries, pc).value.monitors
  }

  ghost predicate MonitorsKept(entries: seq<Entry>) {
    forall pc: nat :: KeptAt(entries, pc)
  }

  /** From the first entry's offset on, its live-monitor bits are the answer before and after. */
  lemma {:induction false} HeadKept(entries: seq<Entry>)
    requires Ordered(entries) && entries != []
    ensures Closed(entries) != [] && Closed(entries)[0].offset <= entries[0].offset
    ensures Closed(entries)[0].monitors == entries[0].monitors
    decreases |entries|
  {
    if |entries| >= 2 && Same(entries[0], entries[1]) {
      HeadKept([entries[0].(offset := entries[1].offset)] + entries[2..]);
    }
  }

  /** `close` keeps the live-monitor bits of every answer exactly when the runs it merges agree. */
  lemma MonitorsKeptExactly(entries: seq<Entry>)
    requires Ordered(entries)
    ensures MonitorsKept(entries) <==> RunsAgree(entries)
  {
    MonitorsKeptByMerges(entries);
    MergesAgreeExactly(entries);
  }

  lemma {:induction false} MonitorsKeptByMerges(entries: seq<Entry>)
    requires Ordered(entries)
    ensures MonitorsKept(entries) <==> MergesAgree(entries)
    decreases |entries|
  {
    if |entries| < 2 {
      assert forall pc: nat :: KeptAt(entries, pc);
    } else if Same(entries[0], entries[1]) {
      var merged := [entries[0].(offset := entries[1].offset)] + entries[2..];
      MonitorsKeptByMerges(merged);
      HeadKept(merged);
      MergedAnswers(entries);
    } else {
      MonitorsKeptByMerges(entries[1..]);
      HeadKept(entries[1..]);
      forall pc: nat ensures KeptAt(entries, pc) <==> pc >= entries[0].offset || KeptAt(entries[1..], pc) {
        assert Closed(entries)[1..] == Closed(entries[1..]);
      }
      if MonitorsKept(entries) {
        forall pc: nat ensures KeptAt(entries[1..], pc) {
          assert KeptAt(entries, pc);
        }
      }
      if MonitorsKept(entries[1..]) {
        forall pc: nat ensures KeptAt(entries, pc) {
          assert KeptAt(entries[1..], pc);
        }
      }
    }
  }

  /** Merging the first two entries only changes the answers between their offsets. */
  lemma MergedAnswers(entries: seq<Entry>)
    requires Ordered(entries) && |entries| >= 2 && Same(entries[0], entries[1])
    ensures var merged := [entries[0].(offset := entries[1].offset)] + entries[2..];
      MonitorsKept(entries) <==>
      MonitorsKept(merged) && (entries[1].offset < entries[0].offset ==> entries[1].monitors == entries[0].monitors)
  {
    var merged := [entries[0].(offset := entries[1].offset)] + entries[2..];
    forall pc: nat
      ensures pc < entries[1].offset || pc >= entries[0].offset ==> (KeptAt(entries, pc) <==> KeptAt(merged, pc))
      ensures entries[1].offset <= pc < entries[0].offset ==> (KeptAt(entries, pc) <==> entries[1].monitors == entries[0].monitors)
      ensures entries[1].offset <= pc ==> KeptAt(merged, pc)
    {
      MergedAnswerAt(entries, pc);
    }
    hide KeptAt, Closed, Lookup;
    if MonitorsKept(entries) && entries[1].offset < entries[0].offset {
      assert KeptAt(entries, entries[1].offset);
    }
    if MonitorsKept(entries) {
      forall pc: nat ensures KeptAt(merged, pc) {
        assert KeptAt(entries, pc);
      }
    }
    if MonitorsKept(merged) && (entries[1].offset < entries[0].offset ==> entries[1].monitors == entries[0].monitors) {
      forall pc: nat ensures KeptAt(entries, pc) {
        assert KeptAt(merged, pc);
      }
    }
  }

  lemma MergedAnswerAt(entries: seq<Entry>, pc: nat)
    requires Ordered(entries) && |entries| >= 2 && Same(entries[0], entries[1])
    ensures var merged := [entries[0].(offset := entries[1].offset)] + entries[2..];
      && (pc < entries[1].offset || pc >= entries[0].offset ==> (KeptAt(entries, pc) <==> KeptAt(merged, pc)))
      && (entries[1].offset <= pc < entries[0].offset ==> (KeptAt(entries, pc) <==> entries[1].monitors == entries[0].monitors))
      && (entries[1].offset <= pc ==> KeptAt(merged, pc))
  {
    var merged := [entries[0].(offset := entries[1].offset)] + entries[2..];
    assert merged[1..] == entries[2..] == entries[1..][1..];
    HeadKept(merged);
    ClosedMerges(entries);
    assert entries[1].offset <= entries[0].offset;
    hide Same, Closed, Ordered;
    assert Lookup(entries[1..], pc) == if entries[1].offset <= pc then Some(entries[1]) else Lookup(entries[2..], pc);
    assert Lookup(merged, pc) == if entries[1].offset <= pc then Some(merged[0]) else Lookup(entries[2..], pc);
    assert Lookup(entries, pc) == if entries[0].offset <= pc then Some(entries[0]) else Lookup(entries[1..], pc);
    assert entries[1].offset <= pc ==> Lookup(Closed(merged), pc) == Some(Closed(merged)[0]);
  }

  lemma ClosedMerges(entries: seq<Entry>)
    requires |entries| >= 2 && Same(entries[0], entries[1])
    ensures Closed(entries) == Closed([entries[0].(offset := entries[1].offset)] + entries[2..])
  {
  }

  // ----- addStackMap

  /** `e` has the code offset, the slot bits and the live-monitor bits of `m`, and all its registers.  It has an
      internal-pointer map exactly if `m` has one, with no other pairs and as many pinning arrays; and with all its
      pairs, if its own are not repeated and neither has so many that a byte does not count them. */
  ghost predicate Covers(e: Entry, m: Entry) {
    && e.offset == m.offset && e.bits == m.bits && e.monitors == m.monitors && m.registers <= e.registers
    && (e.slots + 7) / 8 == (m.slots + 7) / 8
    && e.internalPointers.Some? == m.internalPointers.Some?
    && (m.internalPointers.Some? ==>
          var ours, theirs := e.internalPointers.value, m.internalPointers.value;
          && ours.distinctPinningArrays == theirs.distinctPinningArrays
          && (forall p :: p in ours.pairs ==> p in theirs.pairs)
          && (|ours.pairs| < 256 && |theirs.pairs| < 256 && NoRepeats(ours.pairs) ==>
                (set p | p in ours.pairs) == (set p | p in theirs.pairs)))
  }

  lemma MergeableCovers(e: Entry, m: Entry)
    requires Mergeable(m, e)
    ensures Covers(e.(registers := e.registers + m.registers), m)
  {
    if m.internalPointers.Some? {
      var ours, theirs := e.internalPointers.value, m.internalPointers.value;
      if |ours.pairs| < 256 && |theirs.pairs| < 256 && NoRepeats(ours.pairs) {
        IdenticalPointersCover(ours, theirs);
      }
    }
  }

  ghost predicate Covered(entries: seq<Entry>, m: Entry) {
    exists i :: 0 <= i < |entries| && Covers(entries[i], m)
  }

  lemma {:induction false} AddedKeepsOrder(entries: seq<Entry>, m: Entry)
    requires Ordered(entries)
    ensures Ordered(Added(entries, m))
    ensures forall x :: HasOffset(Added(entries, m), x) ==> HasOffset([m] + entries, x)
  {
    if entries == [] || (!Mergeable(m, entries[0]) && m.offset > entries[0].offset) {
      assert [m] + entries == Added(entries, m);
    } else if Mergeable(m, entries[0]) {
      assert forall k :: 0 <= k < |entries| ==> Added(entries, m)[k].offset == ([m] + entries)[k + 1].offset;
    } else {
      AddedKeepsOrder(entries[1..], m);
      OrderedCons(entries[0], Added(entries[1..], m), [m] + entries[1..]);
      assert forall k :: 0 <= k < |[m] + entries[1..]| ==>
        ([m] + entries[1..])[k] == ([m] + entries)[if k == 0 then 0 else k + 1];
      assert ([m] + entries)[1] == entries[0];
    }
  }

  /** The new map is covered afterwards, and whatever was covered still is. */
  lemma {:induction false} AddedCovers(entries: seq<Entry>, m: Entry)
    ensures Covered(Added(entries, m), m)
    ensures forall x :: Covered(entries, x) ==> Covered(Added(entries, m), x)
  {
    if entries != [] && Mergeable(m, entries[0]) {
      FoldCovers(entries, m);
    } else if entries == [] || m.offset > entries[0].offset {
      PrependCovers(entries, m);
    } else {
      AddedCovers(entries[1..], m);
      CoveredTail(entries, Added(entries[1..], m), m);
    }
  }

  lemma FoldCovers(entries: seq<Entry>, m: Entry)
    requires entries != [] && Mergeable(m, entries[0])
    ensures Covered([entries[0].(registers := entries[0].registers + m.registers)] + entries[1..], m)
    ensures forall x :: Covered(entries, x) ==>
      Covered([entries[0].(registers := entries[0].registers + m.registers)] + entries[1..], x)
  {
    var folded := [entries[0].(registers := entries[0].registers + m.registers)] + entries[1..];
    MergeableCovers(entries[0], m);
    assert Covers(folded[0], m);
    forall x | Covered(entries, x)
      ensures Covered(folded, x)
    {
      var i :| 0 <= i < |entries| && Covers(entries[i], x);
      assert i > 0 ==> folded[i] == entries[i];
      assert Covers(folded[i], x);
    }
  }

  lemma PrependCovers(entries: seq<Entry>, m: Entry)
    ensures Covered([m] + entries, m)
    ensures forall x :: Covered(entries, x) ==> Covered([m] + entries, x)
  {
    assert Covers(([m] + entries)[0], m);
    forall x | Covered(entries, x)
      ensures Covered([m] + entries, x)
    {
      var i :| 0 <= i < |entries| && Covers(entries[i], x);
      assert Covers(([m] + entries)[i + 1], x);
    }
  }

  lemma CoveredTail(entries: seq<Entry>, tail: seq<Entry>, m: Entry)
    requires entries != [] && Covered(tail, m)
    requires forall x :: Covered(entries[1..], x) ==> Covered(tail, x)
    ensures Covered([entries[0]] + tail, m)
    ensures forall x :: Covered(entries, x) ==> Covered([entries[0]] + tail, x)
  {
    var more := [entries[0]] + tail;
    forall x | Covered(tail, x)
      ensures Covered(more, x)
    {
      var i :| 0 <= i < |tail| && Covers(tail[i], x);
      assert Covers(more[i + 1], x);
    }
    forall x | Covered(entries, x)
      ensures Covered(more, x)
    {
      var i :| 0 <= i < |entries| && Covers(entries[i], x);
      if i == 0 {
        assert Covers(more[0], x);
      } else {
        assert Covers(entries[1..][i - 1], x);
      }
    }
  }

  /** Internal-pointer maps as they are built: no pair is repeated, and a byte counts them. */
  ghost predicate Comparable(e: Entry) {
    e.internalPointers.Some? ==> NoRepeats(e.internalPointers.value.pairs) && |e.internalPointers.value.pairs| < 256
  }

  /** Everything is equal but registers and byte-code info. */
  ghost predicate SameMap(e: Entry, m: Entry) {
    && e.offset == m.offset && e.bits == m.bits && e.monitors == m.monitors && (e.slots + 7) / 8 == (m.slots + 7) / 8
    && e.internalPointers.Some? == m.internalPointers.Some?
    && (m.internalPointers.Some? ==>
          && e.internalPointers.value.distinctPinningArrays == m.internalPointers.value.distinctPinningArrays
          && (set p | p in e.internalPointers.value.pairs) == (set p | p in m.internalPointers.value.pairs))
  }

  lemma MergeableExactly(e: Entry, m: Entry)
    requires Comparable(e) && Comparable(m)
    ensures Mergeable(m, e) <==> SameMap(e, m)
  {
    if e.internalPointers.Some? && m.internalPointers.Some? {
      IdenticalPointersExact(e.internalPointers.value, m.internalPointers.value);
    }
  }

  /** The one place of an addition: the first equal map, which gains the registers and nothing else, or, if there
      is none, after the last map that is not below the new one. */
  lemma {:induction false} AddedExactly(entries: seq<Entry>, m: Entry) returns (i: nat)
    requires Ordered(entries) && Comparable(m) && forall k :: 0 <= k < |entries| ==> Comparable(entries[k])
    ensures i <= |entries| && forall k :: 0 <= k < i ==> m.offset <= entries[k].offset && !SameMap(entries[k], m)
    ensures if i < |entries| && SameMap(entries[i], m)
      then Added(entries, m) == entries[i := entries[i].(registers := entries[i].registers + m.registers)]
      else Added(entries, m) == entries[..i] + [m] + entries[i..] && forall k :: i <= k < |entries| ==> entries[k].offset < m.offset
  {
    if entries == [] {
      i := 0;
    } else {
      MergeableExactly(entries[0], m);
      if Mergeable(m, entries[0]) || m.offset > entries[0].offset {
        i := 0;
      } else {
        i := AddedExactly(entries[1..], m);
        AddedLater(entries, m, i);
        i := i + 1;
      }
    }
  }

  lemma AddedLater(entries: seq<Entry>, m: Entry, i: nat)
    requires entries != [] && i <= |entries[1..]|
    ensures [entries[0]] + (entries[1..][..i] + [m] + entries[1..][i..]) == entries[..i + 1] + [m] + entries[i + 1..]
    ensures i < |entries[1..]| ==>
      var e := entries[1..][i].(registers := entries[1..][i].registers + m.registers);
      [entries[0]] + entries[1..][i := e] == entries[i + 1 := e]
  {
  }

  /** The atlas after a run of additions. */
  function AddedAll(entries: seq<Entry>, maps: seq<Entry>): seq<Entry>
    decreases maps
  {
    if maps == [] then entries else AddedAll(Added(entries, maps[0]), maps[1..])
  }

  lemma {:induction false} RunKeepsOrderAndCovers(entries: seq<Entry>, maps: seq<Entry>)
    requires Ordered(entries)
    ensures Ordered(AddedAll(entries, maps))
    ensures forall i :: 0 <= i < |maps| ==> Covered(AddedAll(entries, maps), maps[i])
    ensures forall x :: Covered(entries, x) ==> Covered(AddedAll(entries, maps), x)
    decreases maps
  {
    if maps != [] {
      AddedKeepsOrder(entries, maps[0]);
      AddedCovers(entries, maps[0]);
      RunKeepsOrderAndCovers(Added(entries, maps[0]), maps[1..]);
      forall i | 0 <= i < |maps|
        ensures Covered(AddedAll(entries, maps), maps[i])
      {
        if i > 0 {
          assert maps[i] == maps[1..][i - 1];
        }
      }
    }
  }

  // ----- additions and lookups

  /** The first map added at the greatest offset not above `pc`. */
  function FirstAddedBelow(maps: seq<Entry>, pc: nat): Option<Entry> {
    if maps == [] then None
    else
      var before, last := FirstAddedBelow(maps[..|maps| - 1], pc), maps[|maps| - 1];
      if last.offset <= pc && (before.None? || last.offset > before.value.offset) then Some(last) else before
  }

  /** The answer is that map, with more registers perhaps. */
  predicate Answers(found: Option<Entry>, wanted: Option<Entry>) {
    && found.Some? == wanted.Some?
    && (found.Some? ==>
          wanted.value.registers <= found.value.registers && found.value.(registers := wanted.value.registers) == wanted.value)
  }

  /** What one addition does to an answer. */
  lemma {:induction false} AddedAnswer(entries: seq<Entry>, m: Entry, pc: nat)
    requires Ordered(entries)
    ensures var before, after := Lookup(entries, pc), Lookup(Added(entries, m), pc);
      if m.offset <= pc && (before.None? || m.offset > before.value.offset) then after == Some(m) else Answers(after, before)
  {
    if entries != [] {
      var rest := Added(entries[1..], m);
      AddedAnswer(entries[1..], m, pc);
      LookupIsBelow(entries[1..], pc);
      assert ([entries[0]] + rest)[1..] == rest && ([m] + entries)[1..] == entries;
      assert ([entries[0].(registers := entries[0].registers + m.registers)] + entries[1..])[1..] == entries[1..];
    }
  }

  lemma {:induction false} LookupIsBelow(entries: seq<Entry>, pc: nat)
    ensures Lookup(entries, pc).Some? ==> Lookup(entries, pc).value in entries && Lookup(entries, pc).value.offset <= pc
  {
    if entries != [] && entries[0].offset > pc {
      LookupIsBelow(entries[1..], pc);
    }
  }

  lemma {:induction false} AddedAllLast(entries: seq<Entry>, maps: seq<Entry>)
    requires maps != []
    ensures AddedAll(entries, maps) == Added(AddedAll(entries, maps[..|maps| - 1]), maps[|maps| - 1])
    decreases maps
  {
    if |maps| > 1 {
      AddedAllLast(Added(entries, maps[0]), maps[1..]);
      assert maps[1..][..|maps| - 2] == maps[..|maps| - 1][1..];
    } else {
      assert maps[..0] == [] && maps[1..] == [];
    }
  }

  /** After any run of additions, a lookup finds the first map added at the greatest offset not above `pc`,
      whatever came before or after it. */
  lemma {:induction false} AdditionsAnswer(maps: seq<Entry>, pc: nat)
    ensures var found, wanted := Lookup(AddedAll([], maps), pc), FirstAddedBelow(maps, pc);
      && found.Some? == wanted.Some?
      && (wanted.Some? ==>
            wanted.value.registers <= found.value.registers && found.value.(registers := wanted.value.registers) == wanted.value)
    decreases |maps|
  {
    if maps != [] {
      var before := maps[..|maps| - 1];
      AdditionsAnswer(before, pc);
      RunKeepsOrderAndCovers([], before);
      AddedAllLast([], maps);
      AddedAnswer(AddedAll([], before), maps[|maps| - 1], pc);
    }
  }

  /** And once the atlas is closed, the slot bits, the byte-code info and at least the registers of that map. */
  lemma ClosedAtlasAnswers(maps: seq<Entry>, pc: nat)
    ensures var found, wanted := Lookup(Closed(AddedAll([], maps)), pc), FirstAddedBelow(maps, pc);
      && found.Some? == wanted.Some?
      && (wanted.Some? ==>
            && found.value.bits == wanted.value.bits && wanted.value.registers <= found.value.registers
            && found.value.byteCode.caller == wanted.value.byteCode.caller
            && found.value.byteCode.index == wanted.value.byteCode.index
            && found.value.byteCode.doNotProfile == wanted.value.byteCode.doNotProfile)
  {
    AdditionsAnswer(maps, pc);
    RunKeepsOrderAndCovers([], maps);
    CloseKeepsLookup(AddedAll([], maps), pc);
  }

  ghost predicate NoRepeats(s: seq<(nat, int)>) {
    forall i, j :: 0 <= i < j < |s| ==> s[i] != s[j]
  }

  /** The comparison of internal-pointer maps is one-sided, but a yes is right if the first map lists no pair
      twice and neither has so many pairs that its byte-sized counter wraps. */
  lemma IdenticalPointersCover(a: InternalPointers, b: InternalPointers)
    requires IdenticalPointers(a, b) && |a.pairs| < 256 && |b.pairs| < 256 && NoRepeats(a.pairs)
    ensures (set p | p in a.pairs) == (set p | p in b.pairs)
  {
    var all := set p | p in b.pairs;
    var found := set p | p in a.pairs;
    DistinctSize(a.pairs);
    AtMostLength(b.pairs);
    SubsetSize(found, all);
  }

  /** If neither lists a pair twice, the answer is yes exactly for the same pairs and the same count of pinning
      arrays. */
  lemma IdenticalPointersExact(a: InternalPointers, b: InternalPointers)
    requires |a.pairs| < 256 && |b.pairs| < 256 && NoRepeats(a.pairs) && NoRepeats(b.pairs)
    ensures IdenticalPointers(a, b) <==>
      (set p | p in a.pairs) == (set p | p in b.pairs) && a.distinctPinningArrays == b.distinctPinningArrays
  {
    if IdenticalPointers(a, b) {
      IdenticalPointersCover(a, b);
    }
    var all := set p | p in b.pairs;
    var found := set p | p in a.pairs;
    if found == all {
      DistinctSize(a.pairs);
      DistinctSize(b.pairs);
      forall p | p in a.pairs ensures p in b.pairs {
        assert p in found;
      }
    }
  }

  /** Without a bound on the pairs the answer is also yes, wrongly, exactly for a part of the other map's pairs that
      is smaller by a multiple of 256. */
  lemma IdenticalPointersUnbounded(a: InternalPointers, b: InternalPointers)
    requires NoRepeats(a.pairs) && NoRepeats(b.pairs)
    ensures IdenticalPointers(a, b) <==>
      && a.distinctPinningArrays == b.distinctPinningArrays
      && (|| (set p | p in a.pairs) == (set p | p in b.pairs)
          || ((forall p :: p in a.pairs ==> p in b.pairs) && |a.pairs| < |b.pairs| && (|b.pairs| - |a.pairs|) % 256 == 0))
  {
    var all := set p | p in b.pairs;
    var found := set p | p in a.pairs;
    DistinctSize(a.pairs);
    DistinctSize(b.pairs);
    if forall p :: p in a.pairs ==> p in b.pairs {
      assert found <= all;
      if |b.pairs| <= |a.pairs| {
        SubsetSize(found, all);
      } else {
        assert |a.pairs| % 256 == |b.pairs| % 256 <==> (|b.pairs| - |a.pairs|) % 256 == 0;
      }
    } else {
      var p :| p in a.pairs && p !in b.pairs;
      assert p in found && p !in all;
    }
  }

  /** The byte does wrap: a map without pairs passes for any map of 256 pairs with as many pinning arrays. */
  lemma CountWraps(b: InternalPointers)
    requires |b.pairs| == 256
    ensures IdenticalPointers(InternalPointers([], b.distinctPinningArrays), b)
    ensures b.pairs[0] in b.pairs && b.pairs[0] !in InternalPointers([], b.distinctPinningArrays).pairs
  {
    var none := InternalPointers([], b.distinctPinningArrays);
    assert |none.pairs| == 0 && 256 % 256 == 0;
  }

  lemma {:induction false} DistinctSize(s: seq<(nat, int)>)
    requires NoRepeats(s)
    ensures |set p | p in s| == |s|
  {
    if s != [] {
      DistinctSize(s[1..]);
      assert (set p | p in s) == {s[0]} + (set p | p in s[1..]);
    }
  }

  lemma {:induction false} AtMostLength(s: seq<(nat, int)>)
    ensures |set p | p in s| <= |s|
  {
    if s != [] {
      AtMostLength(s[1..]);
      assert (set p | p in s) == {s[0]} + (set p | p in s[1..]);
    }
  }

  lemma SubsetSize(a: set<(nat, int)>, b: set<(nat, int)>)
    requires a <= b && |b| <= |a|
    ensures a == b
  {
    assert |b - a| == |b| - |a|;
  }

  // ----- the objects

  class StackMap {
    var offset: nat
    const slots: nat
    const bits: seq<bv8>
    const monitors: Option<seq<bv8>>
    var registers: set<nat>
    const byteCode: ByteCodeInfo
    const internalPointers: Option<InternalPointers>

    constructor (e: Entry)
      ensures Contents() == e
    {
      offset, registers := e.offset, e.registers;
      slots, bits, monitors, byteCode, internalPointers := e.slots, e.bits, e.monitors, e.byteCode, e.internalPointers;
    }

    function Contents(): Entry
      reads this
    {
      Entry(offset, slots, bits, monitors, registers, byteCode, internalPointers)
    }
  }

  /** The contents of a list of maps. */
  function View(maps: seq<StackMap>): (entries: seq<Entry>)
    reads maps
    ensures |entries| == |maps| && forall i :: 0 <= i < |maps| ==> entries[i] == maps[i].Contents()
  {
    seq(|maps|, i requires 0 <= i < |maps| reads maps => maps[i].Contents())
  }

  class GCStackAtlas {
    var maps: seq<StackMap>
    var numberOfMaps: int
    var numberOfSlotsMapped: nat

    ghost predicate Valid()
      reads this
    {
      numberOfMaps == |maps| && forall i, j :: 0 <= i < j < |maps| ==> maps[i] != maps[j]
    }

    constructor (slots: nat)
      ensures Valid() && maps == [] && numberOfSlotsMapped == slots
    {
      maps, numberOfMaps, numberOfSlotsMapped := [], 0, slots;
    }

    /** Let a map take over the range of the next one, which leaves the list. */
    method MergeNext(i: nat)
      requires Valid() && i + 1 < |maps|
      modifies this`maps, this`numberOfMaps, maps`offset
      ensures Valid() && maps == old(maps)[..i + 1] + old(maps)[i + 2..]
      ensures View(maps) == Merged(old(View(maps)), i)
    {
      ghost var v := View(maps);
      maps[i].offset := maps[i + 1].offset;
      maps := maps[..i + 1] + maps[i + 2..];
      numberOfMaps := numberOfMaps - 1;
      assert forall k :: 0 <= k < |maps| ==> maps[k].Contents() == Merged(v, i)[k];
    }

    /** Merge adjacent equal maps in place. */
    method Close()
      requires Valid()
      modifies this`maps, this`numberOfMaps, maps`offset
      ensures Valid() && View(maps) == Closed(old(View(maps)))
    {
      ghost var before := View(maps);
      assert Closed([]) == [] && before[0..] == before;
      hide Closed, Merged, Same;
      var i := 0;
      while i < |maps|
        invariant i <= |maps| && Valid()
        invariant forall k :: 0 <= k < |maps| ==> maps[k] in old(maps)
        invariant View(maps)[..i] + Closed(View(maps)[i..]) == Closed(before)
        decreases |maps|, |maps| - i
      {
        ghost var v := View(maps);
        if i + 1 < |maps| && Same(maps[i].Contents(), maps[i + 1].Contents()) {
          MergeStep(v, i);
          MergeNext(i);
        } else {
          SkipStep(v, i);
          i := i + 1;
        }
      }
      assert View(maps)[i..] == [];
    }

    method FoldInto(i: nat, registers: set<nat>)
      requires Valid() && i < |maps|
      modifies maps`registers
      ensures View(maps) == old(View(maps))[i := old(maps[i].Contents()).(registers := old(maps[i].registers) + registers)]
    {
      maps[i].registers := maps[i].registers + registers;
    }

    /** The first place where a new map can be folded in or is above the next map's offset. */
    method FindPlace(m: StackMap) returns (i: nat)
      requires Valid()
      ensures i <= |maps| && (i < |maps| ==> Mergeable(m.Contents(), maps[i].Contents()) || m.offset > maps[i].offset)
      ensures Added(View(maps), m.Contents()) == View(maps)[..i] + Added(View(maps)[i..], m.Contents())
    {
      hide Added, Mergeable;
      i := 0;
      while i < |maps| && !Mergeable(m.Contents(), maps[i].Contents()) && m.offset <= maps[i].offset
        invariant i <= |maps|
        invariant Added(View(maps), m.Contents()) == View(maps)[..i] + Added(View(maps)[i..], m.Contents())
      {
        PassStep(View(maps), m.Contents(), i);
        i := i + 1;
      }
    }

    method InsertAt(i: nat, m: StackMap)
      requires Valid() && i <= |maps| && m !in maps
      modifies this`maps, this`numberOfMaps
      ensures Valid() && View(maps) == old(View(maps))[..i] + [m.Contents()] + old(View(maps))[i..]
    {
      maps := maps[..i] + [m] + maps[i..];
      numberOfMaps := numberOfMaps + 1;
    }

    method FoldOrInsert(m: StackMap)
      requires Valid() && m !in maps
      modifies this`maps, this`numberOfMaps, maps`registers
      ensures Valid() && View(maps) == Added(old(View(maps)), m.Contents())
    {
      var i := FindPlace(m);
      AddHere(View(maps), m.Contents(), i);
      if i < |maps| && Mergeable(m.Contents(), maps[i].Contents()) {
        FoldInto(i, m.registers);
      } else {
        InsertAt(i, m);
      }
    }

    /** Put a new map in its place, or fold its registers into an equal map at the same offset. */
    method AddStackMap(m: StackMap)
      requires Valid() && m !in maps
      modifies this`maps, this`numberOfMaps, this`numberOfSlotsMapped, maps`registers
      ensures Valid() && View(maps) == Added(old(View(maps)), m.Contents())
      ensures numberOfSlotsMapped == if m.slots > old(numberOfSlotsMapped) then m.slots else old(numberOfSlotsMapped)
    {
      if maps == [] || m.offset > maps[0].offset {
        AddFirst(View(maps), m.Contents());
        InsertAt(0, m);
      } else {
        FoldOrInsert(m);
      }
      if m.slots > numberOfSlotsMapped {
        numberOfSlotsMapped := m.slots;
      }
    }
  }

  // ----- one step of each loop, on the contents

  function Merged(v: seq<Entry>, i: nat): seq<Entry>
    requires i + 1 < |v|
  {
    v[..i] + [v[i].(offset := v[i + 1].offset)] + v[i + 2..]
  }

  lemma MergeStep(v: seq<Entry>, i: nat)
    requires i + 1 < |v| && Same(v[i], v[i + 1])
    ensures Merged(v, i)[..i] == v[..i] && Closed(Merged(v, i)[i..]) == Closed(v[i..])
  {
    assert Merged(v, i)[i..] == [v[i..][0].(offset := v[i..][1].offset)] + v[i..][2..];
  }

  lemma SkipStep(v: seq<Entry>, i: nat)
    requires i < |v| && (i + 1 < |v| ==> !Same(v[i], v[i + 1]))
    ensures v[..i] + Closed(v[i..]) == v[..i + 1] + Closed(v[i + 1..])
  {
    assert v[i..][1..] == v[i + 1..];
    assert v[i..] == [v[i]] + v[i + 1..];
    assert v[..i + 1] == v[..i] + [v[i]];
  }

  lemma ShiftOne(v: seq<Entry>, i: nat, rest: seq<Entry>)
    requires i < |v|
    ensures v[..i] + ([v[i]] + rest) == v[..i + 1] + rest
  {
  }

  lemma AddedPasses(rest: seq<Entry>, e: Entry)
    requires rest != [] && !Mergeable(e, rest[0]) && e.offset <= rest[0].offset
    ensures Added(rest, e) == [rest[0]] + Added(rest[1..], e)
  {
  }

  lemma PassStep(v: seq<Entry>, e: Entry, i: nat)
    requires i < |v| && !Mergeable(e, v[i]) && e.offset <= v[i].offset
    ensures v[..i] + Added(v[i..], e) == v[..i + 1] + Added(v[i + 1..], e)
  {
    AddedPasses(v[i..], e);
    assert v[i..][1..] == v[i + 1..];
    ShiftOne(v, i, Added(v[i + 1..], e));
  }

  lemma AddFirst(v: seq<Entry>, e: Entry)
    requires v == [] || e.offset > v[0].offset
    ensures Added(v, e) == v[..0] + [e] + v[0..]
  {
  }

  lemma AddHere(v: seq<Entry>, e: Entry, i: nat)
    requires i <= |v| && (i < |v| ==> Mergeable(e, v[i]) || e.offset > v[i].offset)
    ensures v[..i] + Added(v[i..], e)
      == if i < |v| && Mergeable(e, v[i]) then v[i := v[i].(registers := v[i].registers + e.registers)]
         else v[..i] + [e] + v[i..]
  {
    if i < |v| {
      var x := v[i].(registers := v[i].registers + e.registers);
      assert v[i..][0] == v[i];
      assert v[i := x] == v[..i] + ([x] + v[i..][1..]);
    }
    assert v[..i] + [e] + v[i..] == v[..i] + ([e] + v[i..]);
  }
}
