/** The spill-slot allocator and the spill part of the GC map.

Every virtual register that is spilled gets a backing store: a stack temporary with two half-slot
occupancy flags.  Freed stores wait on free lists by size; an 8-byte store whose first half is free
also serves 4-byte spills.  `live` is the set of allocations the callers still hold. */
module Spills {
  import opened Options

  /** The free list a store waits on. */
  datatype Place = Nowhere | On4 | On8 | On16 | OnInternal

  class BackingStore {
    const size: int
    const pinningArray: Option<nat>
    var firstHalf: bool
    var secondHalf: bool
    var collected: bool
    var gcMapIndex: int
    var maxSpillDepth: int
    ghost var place: Place

    constructor (size: int, pinningArray: Option<nat>)
      ensures this.size == size && this.pinningArray == pinningArray && place == Nowhere
      ensures !firstHalf && !secondHalf && !collected && gcMapIndex == -1
    {
      this.size := size;
      this.pinningArray := pinningArray;
      firstHalf, secondHalf, collected := false, false, false;
      gcMapIndex, maxSpillDepth := -1, -1;
      place := Nowhere;
    }

    predicate IsInternalPointer() {
      pinningArray.Some?
    }

    predicate IsOccupied()
      reads `firstHalf, `secondHalf
    {
      firstHalf || secondHalf
    }

    /** Room for what a list serves. */
    ghost predicate HasRoom(list: Place)
      reads `firstHalf, `secondHalf, `place
    {
      place == list && !firstHalf && match list
        case Nowhere => false
        case On4 => !IsInternalPointer() && (size == 8 || (size <= 4 && !secondHalf))
        case On8 => !IsInternalPointer() && size == 8 && !secondHalf
        case On16 => !IsInternalPointer() && size == 16 && !secondHalf
        case OnInternal => IsInternalPointer() && !secondHalf
    }

    /** A store from which a request can be served. */
    predicate Suits(dataSize: int)
      reads `firstHalf, `secondHalf
    {
      && !IsInternalPointer() && !firstHalf
      && ((dataSize <= 4 && size == 8) || !secondHalf)
      && (dataSize <= 8 || dataSize == 16 ==> dataSize <= size)
    }
  }

  /** One allocation a caller holds: the store, how many bytes at which offset, and whether they are a
      collected reference. */
  datatype Handle = Handle(store: BackingStore, size: int, offset: int, collected: bool)

  /** A spill of at most 4 bytes in an 8-byte store takes one half of it; any other takes it whole. */
  predicate IsHalf(h: Handle) {
    h.size <= 4 && h.store.size == 8 && !h.store.IsInternalPointer()
  }

  predicate UsesFirst(h: Handle) {
    IsHalf(h) ==> h.offset == 0
  }

  predicate UsesSecond(h: Handle) {
    IsHalf(h) ==> h.offset == 4
  }

  /** An allocation is well placed; only sizes from 9 to 15 may exceed the store. */
  predicate HandleOk(h: Handle, referenceSize: int) {
    && 1 <= h.size <= 16
    && (h.offset == 0 || (h.offset == 4 && IsHalf(h)))
    && (h.size <= 8 || h.size == 16 ==> h.offset + h.size <= h.store.size)
    && (h.collected ==> h.size == referenceSize && !h.store.IsInternalPointer())
  }

  ghost predicate NoDuplicates(s: seq<BackingStore>) {
    forall i, j :: 0 <= i < j < |s| ==> s[i] != s[j]
  }

  /** Every store on a free list has room for what that list serves; each is there once. */
  ghost predicate ListOk(list: seq<BackingStore>, place: Place, all: set<BackingStore>)
    reads all`firstHalf, all`secondHalf, all`place
  {
    && (forall i :: 0 <= i < |list| ==> list[i] in all && list[i].HasRoom(place))
    && NoDuplicates(list)
  }

  /** std::list::remove. */
  function Without(s: seq<BackingStore>, x: BackingStore): seq<BackingStore> {
    if s == [] then []
    else if s[0] == x then Without(s[1..], x)
    else [s[0]] + Without(s[1..], x)
  }

  lemma {:induction false} WithoutOk(s: seq<BackingStore>, x: BackingStore)
    ensures forall i :: 0 <= i < |Without(s, x)| ==> Without(s, x)[i] in s && Without(s, x)[i] != x
    ensures forall y :: y in s && y != x ==> y in Without(s, x)
    ensures NoDuplicates(s) ==> NoDuplicates(Without(s, x))
  {
    if s != [] {
      WithoutOk(s[1..], x);
    }
  }

  /** `left` is the list without that store: the same one, or with just that position cut out. */
  ghost predicate LeftOut(list: seq<BackingStore>, x: BackingStore, left: seq<BackingStore>) {
    && (x !in list ==> left == list)
    && forall i :: 0 <= i < |list| && list[i] == x ==> left == list[..i] + list[i + 1..]
  }

  lemma {:induction false} WithoutLeavesOut(s: seq<BackingStore>, x: BackingStore)
    requires NoDuplicates(s)
    ensures LeftOut(s, x, Without(s, x))
  {
    if s != [] {
      assert s == [s[0]] + s[1..];
      WithoutLeavesOut(s[1..], x);
      forall i | 0 <= i < |s| && s[i] == x ensures Without(s, x) == s[..i] + s[i + 1..] {
        if i > 0 {
          CutLater(s, i);
        } else {
          assert x !in s[1..];
        }
      }
    }
  }

  lemma CutLater(s: seq<BackingStore>, i: nat)
    requires 0 < i < |s|
    ensures s[1..][i - 1] == s[i] && [s[0]] + (s[1..][..i - 1] + s[1..][i..]) == s[..i] + s[i + 1..]
  {
  }

  lemma PushOk(list: seq<BackingStore>, place: Place, all: set<BackingStore>, b: BackingStore)
    requires ListOk(list, place, all) && b in all && b.HasRoom(place) && b !in list
    ensures ListOk([b] + list, place, all)
  {
  }

  /** Where an allocation takes its store from. */
  datatype Source = Free4 | Free8 | Free16 | Fresh

  class SpillAllocator {
    const referenceSize: int
    const firstSpillIndex: nat
    var spill4: seq<BackingStore>
    var spill8: seq<BackingStore>
    var spill16: seq<BackingStore>
    var internalPointers: seq<BackingStore>
    var allSpills: set<BackingStore>
    var collectedSpills: seq<BackingStore>
    var locked: bool
    var slotsMapped: nat
    ghost var live: set<Handle>
    ghost var firstOwner: map<BackingStore, Handle>
    ghost var secondOwner: map<BackingStore, Handle>

    ghost predicate ListsOk()
      reads `spill4, `spill8, `spill16, `internalPointers, `allSpills
      reads allSpills`firstHalf, allSpills`secondHalf, allSpills`place
    {
      && ListOk(spill4, On4, allSpills) && ListOk(spill8, On8, allSpills)
      && ListOk(spill16, On16, allSpills) && ListOk(internalPointers, OnInternal, allSpills)
    }

    /** Each half of a store has at most one owner among the live allocations, and its occupancy flag is
        set exactly when it has one. */
    ghost predicate OccupancyOk()
      reads `live, `firstOwner, `secondOwner, `allSpills, allSpills`firstHalf, allSpills`secondHalf
    {
      && (forall h :: h in live ==> h.store in allSpills && HandleOk(h, referenceSize))
      && (forall h :: h in live && UsesFirst(h) ==> h.store in firstOwner && firstOwner[h.store] == h)
      && (forall h :: h in live && UsesSecond(h) ==> h.store in secondOwner && secondOwner[h.store] == h)
      && (forall b :: b in firstOwner ==> firstOwner[b] in live && firstOwner[b].store == b && UsesFirst(firstOwner[b]))
      && (forall b :: b in secondOwner ==> secondOwner[b] in live && secondOwner[b].store == b && UsesSecond(secondOwner[b]))
      && (forall b :: b in allSpills ==> (b.firstHalf <==> b in firstOwner) && (b.secondHalf <==> b in secondOwner))
    }

    ghost predicate SizesOk()
      reads `allSpills
    {
      && (referenceSize == 4 || referenceSize == 8)
      && (forall b :: b in allSpills ==> referenceSize <= b.size <= 16)
      && (forall b :: b in allSpills && b.IsInternalPointer() ==> b.size == referenceSize)
    }

    /** The stores with a GC index are those on the collected list; indices are distinct and mapped. */
    ghost predicate IndicesOk()
      reads `collectedSpills, `allSpills, `slotsMapped, allSpills`gcMapIndex
    {
      && firstSpillIndex <= slotsMapped
      && (forall i :: 0 <= i < |collectedSpills| ==> collectedSpills[i] in allSpills && !collectedSpills[i].IsInternalPointer())
      && (forall i :: 0 <= i < |collectedSpills| ==> firstSpillIndex <= collectedSpills[i].gcMapIndex < slotsMapped)
      && (forall i, j :: 0 <= i < j < |collectedSpills| ==> collectedSpills[i].gcMapIndex != collectedSpills[j].gcMapIndex)
      && (forall b :: b in allSpills && b.gcMapIndex >= 0 ==> b in collectedSpills)
    }

    /** A store that holds a collected reference has a GC index, and with 8-byte references its collected
        flag is right for every allocation in it. */
    ghost predicate CollectedOk()
      reads `live, `allSpills, allSpills`collected, allSpills`gcMapIndex
    {
      && (forall h :: h in live && h.store in allSpills && h.collected ==> h.store.gcMapIndex >= 0)
      && (referenceSize == 8 ==> forall h :: h in live && h.store in allSpills ==> h.store.collected == h.collected)
      && (forall b :: b in allSpills && b.IsInternalPointer() ==> !b.collected)
    }

    ghost predicate Valid()
      reads this, allSpills
    {
      SizesOk() && ListsOk() && OccupancyOk() && IndicesOk() && CollectedOk()
    }

    constructor (referenceSize: int, slotsMapped: nat)
      requires referenceSize == 4 || referenceSize == 8
      ensures Valid() && live == {} && allSpills == {} && !locked
      ensures spill4 == spill8 == spill16 == internalPointers == []
      ensures this.referenceSize == referenceSize && this.slotsMapped == slotsMapped == firstSpillIndex
    {
      this.referenceSize := referenceSize;
      this.slotsMapped, firstSpillIndex := slotsMapped, slotsMapped;
      spill4, spill8, spill16, internalPointers := [], [], [], [];
      allSpills, collectedSpills := {}, [];
      locked := false;
      live, firstOwner, secondOwner := {}, map[], map[];
    }

    /** No two live allocations share a byte, each fits its store unless its size is from 9 to 15, and a
        store is occupied exactly when something live is in it. */
    lemma NoOverlap()
      requires Valid()
      ensures forall h, h' :: h in live && h' in live && h != h' && h.store == h'.store ==>
        h.offset + h.size <= h'.offset || h'.offset + h'.size <= h.offset
      ensures forall h :: h in live && (h.size <= 8 || h.size == 16) ==> 0 <= h.offset && h.offset + h.size <= h.store.size
      ensures forall b :: b in allSpills ==> (b.IsOccupied() <==> exists h :: h in live && h.store == b)
    {
      forall b | b in allSpills
        ensures b.IsOccupied() <==> exists h :: h in live && h.store == b
      {
        if h :| h in live && h.store == b {
          assert UsesFirst(h) || UsesSecond(h);
        }
      }
    }

    /** Which free list serves a request. */
    function SourceOf(dataSize: int, collected: bool, reuse: bool): Source
      reads this
    {
      if !reuse then Fresh
      else if dataSize <= 4 && spill4 != [] then Free4
      else if dataSize < 16 && (referenceSize == 8 || !collected) && spill8 != [] then Free8
      else if dataSize == 16 && spill16 != [] then Free16
      else Fresh
    }

    /** The store at the head of a free list. */
    ghost function Head(source: Source): BackingStore
      requires !source.Fresh?
      requires (source.Free4? ==> spill4 != []) && (source.Free8? ==> spill8 != []) && (source.Free16? ==> spill16 != [])
      reads this
    {
      if source.Free4? then spill4[0] else if source.Free8? then spill8[0] else spill16[0]
    }

    function NewSize(dataSize: int): int {
      if dataSize < referenceSize then referenceSize else dataSize
    }

    method NewSpill(size: int, pinningArray: Option<nat>) returns (spill: BackingStore)
      requires Valid() && referenceSize <= size <= 16 && (pinningArray.Some? ==> size == referenceSize)
      modifies this`allSpills
      ensures Valid() && fresh(spill) && spill.size == size && spill.pinningArray == pinningArray
      ensures allSpills == old(allSpills) + {spill}
      ensures !spill.IsOccupied() && !spill.collected && spill.gcMapIndex == -1 && spill.place == Nowhere
    {
      hide SizesOk, ListsOk, OccupancyOk, IndicesOk, CollectedOk;
      spill := new BackingStore(size, pinningArray);
      Register(spill);
    }

    /** Add an empty store, not yet on any list, to the stores of the method. */
    method Register(spill: BackingStore)
      requires Valid() && spill !in allSpills && !spill.IsOccupied() && !spill.collected && spill.gcMapIndex == -1
      requires referenceSize <= spill.size <= 16 && (spill.IsInternalPointer() ==> spill.size == referenceSize)
      modifies this`allSpills
      ensures Valid() && allSpills == old(allSpills) + {spill}
    {
      allSpills := allSpills + {spill};
    }

    /** Take the head of the first list that suits. */
    method PopFree(dataSize: int, collected: bool, reuse: bool) returns (found: Option<BackingStore>)
      requires ListsOk() && SizesOk() && 1 <= dataSize <= 16
      modifies this`spill4, this`spill8, this`spill16, allSpills`place
      ensures ListsOk()
      ensures var source := old(SourceOf(dataSize, collected, reuse));
        && found == (if source.Fresh? then None else Some(old(Head(source))))
        && spill4 == (if source.Free4? then old(spill4)[1..] else old(spill4))
        && spill8 == (if source.Free8? then old(spill8)[1..] else old(spill8))
        && spill16 == (if source.Free16? then old(spill16)[1..] else old(spill16))
      ensures found.Some? ==> found.value in allSpills && found.value.place == Nowhere && found.value.Suits(dataSize)
      ensures old(SourceOf(dataSize, collected, reuse)).Free8? ==> found.value.size == 8
    {
      found := None;
      if reuse {
        if dataSize <= 4 && spill4 != [] {
          found := Some(spill4[0]);
          spill4 := spill4[1..];
        }
        if found.None? && dataSize < 16 && (referenceSize == 8 || !collected) && spill8 != [] {
          found := Some(spill8[0]);
          spill8 := spill8[1..];
        }
        if found.None? && dataSize == 16 && spill16 != [] {
          found := Some(spill16[0]);
          spill16 := spill16[1..];
        }
      }
      if found.Some? {
        found.value.place := Nowhere;
      }
    }

    /** The store a request is served from: the head of the first list that suits, or a new store.  `keep`
        is the optimizer's consent to reuse; without it the popped store is dropped for good. */
    method ChooseStore(dataSize: int, collected: bool, reuse: bool, keep: bool) returns (spill: BackingStore)
      requires Valid() && 1 <= dataSize <= 16
      modifies this`spill4, this`spill8, this`spill16, this`allSpills, allSpills`place
      ensures Valid() && spill in allSpills && spill.place == Nowhere && spill.Suits(dataSize)
      ensures var source := old(SourceOf(dataSize, collected, reuse));
        && spill4 == (if source.Free4? then old(spill4)[1..] else old(spill4))
        && spill8 == (if source.Free8? then old(spill8)[1..] else old(spill8))
        && spill16 == (if source.Free16? then old(spill16)[1..] else old(spill16))
      ensures var source := old(SourceOf(dataSize, collected, reuse));
        if source.Fresh? || !keep
        then fresh(spill) && allSpills == old(allSpills) + {spill} && spill.size == NewSize(dataSize)
        else allSpills == old(allSpills) && spill == old(Head(source))
      ensures old(SourceOf(dataSize, collected, reuse)).Free8? && keep ==> spill.size == 8
    {
      hide ListsOk, OccupancyOk, IndicesOk, CollectedOk;
      var found := PopFree(dataSize, collected, reuse);
      if reuse && !keep {
        found := None;
      }
      if found.Some? {
        spill := found.value;
      } else {
        spill := NewSpill(NewSize(dataSize), None);
      }
    }

    /** Set the flags of the halves an allocation takes and record it as their owner. */
    method Own(b: BackingStore, first: bool, second: bool, ghost h: Handle)
      requires OccupancyOk() && b in allSpills
      requires HandleOk(h, referenceSize) && h.store == b && first == UsesFirst(h) && second == UsesSecond(h)
      requires (first ==> !b.firstHalf) && (second ==> !b.secondHalf)
      modifies b`firstHalf, b`secondHalf, this`live, this`firstOwner, this`secondOwner
      ensures OccupancyOk() && h !in old(live) && live == old(live) + {h}
      ensures b.firstHalf == (old(b.firstHalf) || first) && b.secondHalf == (old(b.secondHalf) || second)
    {
      if first {
        b.firstHalf := true;
        firstOwner := firstOwner[b := h];
      }
      if second {
        b.secondHalf := true;
        secondOwner := secondOwner[b := h];
      }
      live := live + {h};
    }

    /** An empty or half-empty store serves a request; a store with room left for 4 bytes goes back on the
        4-byte list. */
    method SetFlags(spill: BackingStore, dataSize: int, second: bool, ghost h: Handle)
      requires ListsOk() && OccupancyOk() && spill in allSpills && spill.place == Nowhere
      requires spill.Suits(dataSize) && HandleOk(h, referenceSize)
      requires h.store == spill && h.size == dataSize && h.offset == (if second then 4 else 0)
      requires second ==> dataSize <= 4 && spill.size == 8 && !spill.secondHalf
      modifies spill`firstHalf, spill`secondHalf, spill`place, this`spill4, this`live, this`firstOwner, this`secondOwner
      ensures ListsOk() && OccupancyOk()
      ensures h !in old(live) && live == old(live) + {h}
      ensures spill4 == if second then [spill] + old(spill4) else old(spill4)
    {
      hide OccupancyOk;
      if dataSize <= 4 && spill.size == 8 {
        Own(spill, !second, second, h);
        if second {
          spill.place := On4;
          ListsKept(spill);
          PushOk(spill4, On4, allSpills, spill);
          spill4 := [spill] + spill4;
        } else {
          ListsKept(spill);
        }
      } else {
        Own(spill, true, true, h);
        ListsKept(spill);
      }
    }

    /** Give a store of a collected reference its GC index and set its collected flag. */
    method SetCollected(spill: BackingStore, collected: bool)
      requires IndicesOk() && spill in allSpills && !spill.IsInternalPointer()
      modifies spill`gcMapIndex, spill`collected, this`slotsMapped, this`collectedSpills
      ensures IndicesOk() && spill.collected == collected && (collected ==> spill.gcMapIndex >= 0)
      ensures var newIndex := collected && old(spill.gcMapIndex) < 0;
        && spill.gcMapIndex == (if newIndex then old(slotsMapped) else old(spill.gcMapIndex))
        && slotsMapped == (if newIndex then old(slotsMapped) + 1 else old(slotsMapped))
        && collectedSpills == if newIndex then [spill] + old(collectedSpills) else old(collectedSpills)
    {
      ghost var before := collectedSpills;
      if collected && spill.gcMapIndex < 0 {
        assert spill !in before;
        spill.gcMapIndex := slotsMapped;
        slotsMapped := slotsMapped + 1;
        collectedSpills := [spill] + collectedSpills;
        assert forall i :: 1 <= i < |collectedSpills| ==> collectedSpills[i] == before[i - 1];
      }
      spill.collected := collected;
    }

    /** An allocation that sets its store's collected flag disturbs no other: the store is otherwise empty,
        or both allocations are halves, which with 8-byte references are never collected. */
    twostate lemma CollectedKept(h: Handle)
      requires old(CollectedOk() && OccupancyOk()) && live == old(live) + {h} && HandleOk(h, referenceSize)
      requires unchanged(`allSpills) && h.store in allSpills && !h.store.IsInternalPointer()
      requires !old(h.store.firstHalf) && (UsesSecond(h) ==> !old(h.store.secondHalf))
      requires forall c :: c in allSpills && c != h.store ==> unchanged(c`collected, c`gcMapIndex)
      requires h.store.collected == h.collected && (h.collected || old(h.store.gcMapIndex) >= 0 ==> h.store.gcMapIndex >= 0)
      ensures CollectedOk()
    {
      forall g | g in old(live) && g.store == h.store
        ensures IsHalf(g) && IsHalf(h)
      {
        assert !UsesFirst(g) && !(UsesSecond(g) && UsesSecond(h));
      }
    }

    lemma IndexedIsCollected(b: BackingStore)
      requires Valid() && b in allSpills
      ensures b.gcMapIndex >= 0 <==> b in collectedSpills
    {
    }

    /** Give an unlisted store to an allocation. */
    method Occupy(spill: BackingStore, dataSize: int, collected: bool, second: bool)
      requires Valid() && spill in allSpills && spill.place == Nowhere && spill.Suits(dataSize) && 1 <= dataSize <= 16
      requires collected ==> dataSize == referenceSize
      requires second ==> dataSize <= 4 && spill.size == 8 && !spill.secondHalf
      modifies this`spill4, this`live, this`firstOwner, this`secondOwner, this`slotsMapped, this`collectedSpills, spill
      ensures Valid() && spill.collected == collected
      ensures var h := Handle(spill, dataSize, if second then 4 else 0, collected);
        h !in old(live) && live == old(live) + {h}
      ensures spill4 == if second then [spill] + old(spill4) else old(spill4)
      ensures if collected && old(spill.gcMapIndex) < 0
        then spill.gcMapIndex == old(slotsMapped) && slotsMapped == old(slotsMapped) + 1 && collectedSpills == [spill] + old(collectedSpills)
        else spill.gcMapIndex == old(spill.gcMapIndex) && slotsMapped == old(slotsMapped) && collectedSpills == old(collectedSpills)
    {
      hide SizesOk, ListsOk, OccupancyOk, IndicesOk, CollectedOk;
      ghost var h := Handle(spill, dataSize, if second then 4 else 0, collected);
      SetFlags(spill, dataSize, second, h);
      SetCollected(spill, collected);
      CollectedKept(h);
    }

    /** `offset` is the caller's offset variable, if it has one; callers initialise it to 0.  `keep` and
        `useSecondHalf` are the optimizer's consent to reuse a store and to use its second half. */
    method AllocateSpill(dataSize: int, collected: bool, offset: Option<int>, reuse: bool, disableHalfSlots: bool,
                         keep: bool, useSecondHalf: bool)
      returns (spill: BackingStore, newOffset: int)
      requires Valid() && 1 <= dataSize <= 16
      requires collected ==> dataSize == referenceSize
      requires offset.Some? ==> offset.value == 0
      modifies this`spill4, this`spill8, this`spill16, this`allSpills, this`live, this`firstOwner, this`secondOwner
      modifies this`slotsMapped, this`collectedSpills, allSpills
      ensures Valid() && !spill.IsInternalPointer()
      ensures var h := Handle(spill, dataSize, newOffset, collected);
        h !in old(live) && live == old(live) + {h}
      ensures spill.collected == collected
      ensures if collected && spill !in old(collectedSpills)
        then spill.gcMapIndex == old(slotsMapped) && slotsMapped == old(slotsMapped) + 1 && collectedSpills == [spill] + old(collectedSpills)
        else slotsMapped == old(slotsMapped) && collectedSpills == old(collectedSpills)
      ensures newOffset == 0 || newOffset == 4
      ensures newOffset == 4 <==>
        && offset.Some? && !disableHalfSlots && useSecondHalf && dataSize <= 4 && spill.size == 8
        && forall h :: h in old(live) ==> h.store != spill
      ensures var take4 := reuse && dataSize <= 4 && old(spill4) != [];
        var take8 := reuse && !take4 && dataSize < 16 && (referenceSize == 8 || !collected) && old(spill8) != [];
        var take16 := reuse && dataSize == 16 && old(spill16) != [];
        && spill4 == (if newOffset == 4 then [spill] else []) + (if take4 then old(spill4)[1..] else old(spill4))
        && spill8 == (if take8 then old(spill8)[1..] else old(spill8))
        && spill16 == (if take16 then old(spill16)[1..] else old(spill16))
        && (keep && (take4 || take8 || take16) ==>
              && allSpills == old(allSpills)
              && spill == if take4 then old(spill4)[0] else if take8 then old(spill8)[0] else old(spill16)[0])
        && (!(keep && (take4 || take8 || take16)) ==>
              && fresh(spill) && allSpills == old(allSpills) + {spill}
              && spill.size == if dataSize < referenceSize then referenceSize else dataSize)
        && (dataSize <= spill.size <==> !(8 < dataSize < 16 && take8 && keep))
    {
      hide SizesOk, ListsOk, OccupancyOk, IndicesOk, CollectedOk;
      var caller := if disableHalfSlots then None else offset;
      spill := ChooseStore(dataSize, collected, reuse, keep);
      NoOverlap();
      IndexedIsCollected(spill);
      var second := dataSize <= 4 && spill.size == 8 && caller.Some? && !spill.secondHalf && useSecondHalf;
      newOffset := if second then 4 else 0;
      Occupy(spill, dataSize, collected, second);
    }

    /** Clear the flags of the halves an allocation held and forget it. */
    method Disown(b: BackingStore, first: bool, second: bool, ghost h: Handle)
      requires OccupancyOk() && h in live && h.store == b && first == UsesFirst(h) && second == UsesSecond(h)
      modifies b`firstHalf, b`secondHalf, this`live, this`firstOwner, this`secondOwner
      ensures OccupancyOk() && live == old(live) - {h}
      ensures b.firstHalf == (old(b.firstHalf) && !first) && b.secondHalf == (old(b.secondHalf) && !second)
    {
      if first {
        b.firstHalf := false;
        firstOwner := firstOwner - {b};
      }
      if second {
        b.secondHalf := false;
        secondOwner := secondOwner - {b};
      }
      live := live - {h};
    }

    /** What a live allocation says about its store. */
    lemma LiveFacts(h: Handle)
      requires Valid() && h in live
      ensures h.store in allSpills && HandleOk(h, referenceSize)
      ensures (UsesFirst(h) ==> h.store.firstHalf) && (UsesSecond(h) ==> h.store.secondHalf)
      ensures h.store.firstHalf ==> Unlisted(h.store)
      ensures h.store !in spill8 && h.store !in spill16 && h.store !in internalPointers
    {
      OccupiedUnlisted(h.store);
    }

    /** Clearing flags only makes more room on the lists. */
    twostate lemma RoomKept()
      requires old(ListsOk()) && unchanged(`spill4, `spill8, `spill16, `internalPointers, `allSpills)
      requires forall c :: c in allSpills ==> unchanged(c`place)
      requires forall c :: c in allSpills ==> (c.firstHalf ==> old(c.firstHalf)) && (c.secondHalf ==> old(c.secondHalf))
      ensures ListsOk()
    {
    }

    /** Clear an allocation's flags; that only makes more room in its store. */
    method Vacate(b: BackingStore, first: bool, second: bool, ghost h: Handle)
      requires Valid() && h in live && h.store == b && first == UsesFirst(h) && second == UsesSecond(h)
      modifies b`firstHalf, b`secondHalf, this`live, this`firstOwner, this`secondOwner
      ensures Valid() && live == old(live) - {h}
      ensures old(b.firstHalf || b.secondHalf) && (first ==> old(b.firstHalf)) && (second ==> old(b.secondHalf))
      ensures b.firstHalf == (old(b.firstHalf) && !first) && b.secondHalf == (old(b.secondHalf) && !second)
    {
      Disown(b, first, second, h);
      RoomKept();
    }

    /** Changes to a store on no list leave the lists in order. */
    twostate lemma ListsKept(b: BackingStore)
      requires old(ListsOk()) && unchanged(`spill4, `spill8, `spill16, `internalPointers, `allSpills) && Unlisted(b)
      requires forall c :: c in allSpills && c != b ==> unchanged(c`firstHalf, c`secondHalf, c`place)
      ensures ListsOk()
    {
    }

    /** `_spill4FreeList.push_front`, after room for 4 bytes has appeared in a store on no list. */
    method Push4(spill: BackingStore)
      requires Valid() && spill in allSpills && Unlisted(spill)
      requires !spill.IsInternalPointer() && !spill.firstHalf && (spill.size == 8 || (spill.size <= 4 && !spill.secondHalf))
      modifies this`spill4, spill`place
      ensures Valid() && spill4 == [spill] + old(spill4)
    {
      hide SizesOk, OccupancyOk, IndicesOk, CollectedOk;
      spill.place := On4;
      ListsKept(spill);
      PushOk(spill4, On4, allSpills, spill);
      spill4 := [spill] + spill4;
    }

    method Push16(spill: BackingStore)
      requires Valid() && spill in allSpills && Unlisted(spill)
      requires !spill.IsInternalPointer() && !spill.IsOccupied() && spill.size == 16
      modifies this`spill16, spill`place
      ensures Valid() && spill16 == [spill] + old(spill16)
    {
      hide SizesOk, OccupancyOk, IndicesOk, CollectedOk;
      spill.place := On16;
      ListsKept(spill);
      PushOk(spill16, On16, allSpills, spill);
      spill16 := [spill] + spill16;
    }

    method PushInternal(spill: BackingStore)
      requires Valid() && spill in allSpills && Unlisted(spill) && spill.IsInternalPointer() && !spill.IsOccupied()
      modifies this`internalPointers, spill`place
      ensures Valid() && internalPointers == [spill] + old(internalPointers)
    {
      hide SizesOk, OccupancyOk, IndicesOk, CollectedOk;
      spill.place := OnInternal;
      ListsKept(spill);
      PushOk(internalPointers, OnInternal, allSpills, spill);
      internalPointers := [spill] + internalPointers;
    }

    method Push8(spill: BackingStore)
      requires Valid() && spill in allSpills && Unlisted(spill)
      requires !spill.IsInternalPointer() && !spill.IsOccupied() && spill.size == 8
      modifies this`spill8, spill`place
      ensures Valid() && spill8 == [spill] + old(spill8)
    {
      hide SizesOk, OccupancyOk, IndicesOk, CollectedOk;
      spill.place := On8;
      ListsKept(spill);
      PushOk(spill8, On8, allSpills, spill);
      spill8 := [spill] + spill8;
    }

    method Remove4(spill: BackingStore)
      requires Valid()
      modifies this`spill4
      ensures Valid() && spill4 == Without(old(spill4), spill) && spill !in spill4
    {
      hide SizesOk, OccupancyOk, IndicesOk, CollectedOk;
      WithoutOk(spill4, spill);
      spill4 := Without(spill4, spill);
    }

    predicate Unlisted(b: BackingStore)
      reads this
    {
      b !in spill4 && b !in spill8 && b !in spill16 && b !in internalPointers
    }

    /** A store with an occupied half is on no list, unless only its second half is, and then on the 4-byte
        list at most. */
    lemma OccupiedUnlisted(b: BackingStore)
      requires Valid()
      ensures b.firstHalf ==> b !in spill4
      ensures b.firstHalf || b.secondHalf ==> b !in spill8 && b !in spill16 && b !in internalPointers
    {
    }

    /** After half of an 8-byte store has been vacated. */
    method ReturnHalf(spill: BackingStore)
      requires Valid() && spill in allSpills && spill.size == 8 && !spill.IsInternalPointer()
      requires spill !in spill8 && spill !in spill16 && spill !in internalPointers
      requires spill.secondHalf && !spill.firstHalf && !locked ==> spill !in spill4
      modifies this`spill4, this`spill8, spill`place
      ensures Valid()
      ensures var to := if locked || spill.firstHalf then Nowhere else if spill.secondHalf then On4 else On8;
        && spill4 == (if to == On4 then [spill] + old(spill4) else if to == On8 then Without(old(spill4), spill) else old(spill4))
        && spill8 == if to == On8 then [spill] + old(spill8) else old(spill8)
    {
      hide SizesOk, ListsOk, OccupancyOk, IndicesOk, CollectedOk;
      if !spill.IsOccupied() {
        if !locked {
          Remove4(spill);
          Push8(spill);
        }
      } else if spill.firstHalf {
        // conservatively kept off the 4-byte list
      } else if !locked {
        Push4(spill);
      }
    }

    /** After the whole of a store has been vacated. */
    method ReturnWhole(spill: BackingStore)
      requires Valid() && spill in allSpills && !spill.IsOccupied() && !spill.IsInternalPointer() && Unlisted(spill)
      modifies this`spill4, this`spill8, this`spill16, spill`place
      ensures Valid()
      ensures spill4 == if !locked && spill.size <= 4 then [spill] + old(spill4) else old(spill4)
      ensures spill8 == if !locked && spill.size == 8 then [spill] + old(spill8) else old(spill8)
      ensures spill16 == if !locked && spill.size == 16 then [spill] + old(spill16) else old(spill16)
    {
      hide SizesOk, ListsOk, OccupancyOk, IndicesOk, CollectedOk;
      if !locked {
        if spill.size <= 4 {
          Push4(spill);
        } else if spill.size == 8 {
          Push8(spill);
        } else if spill.size == 16 {
          Push16(spill);
        }
      }
    }

    /** The list a store goes back to once an allocation in it has been vacated: none while the lists are
        locked, and none while its first half is occupied. */
    ghost function FreedTo(spill: BackingStore, half: bool): Place
      reads this, spill
    {
      if locked || spill.firstHalf then Nowhere
      else if spill.IsInternalPointer() then OnInternal
      else if half then (if spill.secondHalf then On4 else On8)
      else if spill.size <= 4 then On4
      else if spill.size == 8 then On8
      else if spill.size == 16 then On16
      else Nowhere
    }

    method FreeHalf(spill: BackingStore, offset: int, ghost h: Handle)
      requires Valid() && h in live && h.store == spill && IsHalf(h) && h.offset == offset
      modifies this`spill4, this`spill8, this`live, this`firstOwner, this`secondOwner
      modifies spill`firstHalf, spill`secondHalf, spill`place
      ensures Valid() && live == old(live) - {h}
      ensures spill.firstHalf == (old(spill.firstHalf) && offset != 0)
      ensures spill.secondHalf == (old(spill.secondHalf) && offset == 0)
      ensures spill4 == match FreedTo(spill, true)
        case On4 => [spill] + old(spill4)
        case On8 => Without(old(spill4), spill)
        case _ => old(spill4)
      ensures spill8 == if FreedTo(spill, true) == On8 then [spill] + old(spill8) else old(spill8)
    {
      hide SizesOk, ListsOk, OccupancyOk, IndicesOk, CollectedOk;
      LiveFacts(h);
      Vacate(spill, offset == 0, offset != 0, h);
      ReturnHalf(spill);
    }

    method FreeWhole(spill: BackingStore, ghost h: Handle)
      requires Valid() && h in live && h.store == spill && !IsHalf(h) && !spill.IsInternalPointer()
      modifies this`spill4, this`spill8, this`spill16, this`live, this`firstOwner, this`secondOwner
      modifies spill`firstHalf, spill`secondHalf, spill`place
      ensures Valid() && live == old(live) - {h} && !spill.IsOccupied()
      ensures spill4 == if FreedTo(spill, false) == On4 then [spill] + old(spill4) else old(spill4)
      ensures spill8 == if FreedTo(spill, false) == On8 then [spill] + old(spill8) else old(spill8)
      ensures spill16 == if FreedTo(spill, false) == On16 then [spill] + old(spill16) else old(spill16)
    {
      hide SizesOk, ListsOk, OccupancyOk, IndicesOk, CollectedOk;
      LiveFacts(h);
      Vacate(spill, true, true, h);
      ReturnWhole(spill);
    }

    method FreeInternal(spill: BackingStore, ghost h: Handle)
      requires Valid() && h in live && h.store == spill && spill.IsInternalPointer()
      modifies this`internalPointers, this`live, this`firstOwner, this`secondOwner
      modifies spill`firstHalf, spill`secondHalf, spill`place
      ensures Valid() && live == old(live) - {h} && !spill.IsOccupied()
      ensures internalPointers == if locked then old(internalPointers) else [spill] + old(internalPointers)
    {
      hide SizesOk, ListsOk, OccupancyOk, IndicesOk, CollectedOk;
      LiveFacts(h);
      Vacate(spill, true, true, h);
      if !locked {
        PushInternal(spill);
      }
    }

    /** Free one live allocation. */
    method FreeSpill(spill: BackingStore, dataSize: int, offset: int, ghost collected: bool)
      requires Valid() && Handle(spill, dataSize, offset, collected) in live
      modifies this`spill4, this`spill8, this`spill16, this`internalPointers, this`live, this`firstOwner, this`secondOwner
      modifies spill`firstHalf, spill`secondHalf, spill`place
      ensures Valid()
      ensures live == old(live) - {Handle(spill, dataSize, offset, collected)}
      ensures var half := spill.pinningArray.None? && dataSize <= 4 && spill.size == 8;
        && spill.firstHalf == (half && old(spill.firstHalf) && offset != 0)
        && spill.secondHalf == (half && old(spill.secondHalf) && offset == 0)
        && (locked || spill.firstHalf ==>
              spill4 == old(spill4) && spill8 == old(spill8) && spill16 == old(spill16) && internalPointers == old(internalPointers))
        && (!locked && !spill.firstHalf ==>
              && internalPointers == (if spill.pinningArray.Some? then [spill] else []) + old(internalPointers)
              && spill16 == (if spill.pinningArray.None? && spill.size == 16 then [spill] else []) + old(spill16)
              && spill8 == (if spill.pinningArray.None? && spill.size == 8 && !spill.secondHalf then [spill] else []) + old(spill8)
              && (if half && !spill.secondHalf then LeftOut(old(spill4), spill, spill4)
                  else spill4 == (if spill.pinningArray.None? && (half || spill.size <= 4) then [spill] else []) + old(spill4)))
    {
      WithoutLeavesOut(spill4, spill);
      ghost var half := IsHalf(Handle(spill, dataSize, offset, collected));
      assert half == (spill.pinningArray.None? && dataSize <= 4 && spill.size == 8);
      hide Valid, Without, LeftOut, IsHalf;
      FreeOne(spill, dataSize, offset, collected);
      FreedCases(spill, half, old(spill4), old(spill8), old(spill16), old(internalPointers));
    }

    /** Where the store has gone, list by list. */
    lemma FreedCases(spill: BackingStore, half: bool, was4: seq<BackingStore>, was8: seq<BackingStore>,
        was16: seq<BackingStore>, wasInternal: seq<BackingStore>)
      requires half == (half && spill.pinningArray.None? && spill.size == 8) && LeftOut(was4, spill, Without(was4, spill))
      requires spill4 == match FreedTo(spill, half)
        case On4 => [spill] + was4
        case On8 => if half then Without(was4, spill) else was4
        case _ => was4
      requires spill8 == if FreedTo(spill, half) == On8 then [spill] + was8 else was8
      requires spill16 == if FreedTo(spill, half) == On16 then [spill] + was16 else was16
      requires internalPointers == if FreedTo(spill, half) == OnInternal then [spill] + wasInternal else wasInternal
      requires spill.secondHalf ==> half
      ensures locked || spill.firstHalf ==>
        spill4 == was4 && spill8 == was8 && spill16 == was16 && internalPointers == wasInternal
      ensures !locked && !spill.firstHalf ==>
        && internalPointers == (if spill.pinningArray.Some? then [spill] else []) + wasInternal
        && spill16 == (if spill.pinningArray.None? && spill.size == 16 then [spill] else []) + was16
        && spill8 == (if spill.pinningArray.None? && spill.size == 8 && !spill.secondHalf then [spill] else []) + was8
        && (if half && !spill.secondHalf then LeftOut(was4, spill, spill4)
            else spill4 == (if spill.pinningArray.None? && (half || spill.size <= 4) then [spill] else []) + was4)
    {
      hide Without, LeftOut;
    }

    method FreeOne(spill: BackingStore, dataSize: int, offset: int, ghost collected: bool)
      requires Valid() && Handle(spill, dataSize, offset, collected) in live
      modifies this`spill4, this`spill8, this`spill16, this`internalPointers, this`live, this`firstOwner, this`secondOwner
      modifies spill`firstHalf, spill`secondHalf, spill`place
      ensures Valid() && live == old(live) - {Handle(spill, dataSize, offset, collected)}
      ensures var half := IsHalf(Handle(spill, dataSize, offset, collected));
        && spill.firstHalf == (half && old(spill.firstHalf) && offset != 0)
        && spill.secondHalf == (half && old(spill.secondHalf) && offset == 0)
        && (spill4 == match FreedTo(spill, half)
            case On4 => [spill] + old(spill4)
            case On8 => if half then Without(old(spill4), spill) else old(spill4)
            case _ => old(spill4))
        && spill8 == (if FreedTo(spill, half) == On8 then [spill] + old(spill8) else old(spill8))
        && spill16 == (if FreedTo(spill, half) == On16 then [spill] + old(spill16) else old(spill16))
        && internalPointers == (if FreedTo(spill, half) == OnInternal then [spill] + old(internalPointers) else old(internalPointers))
    {
      ghost var h := Handle(spill, dataSize, offset, collected);
      hide SizesOk, ListsOk, OccupancyOk, IndicesOk, CollectedOk, Without;
      if spill.IsInternalPointer() {
        FreeInternal(spill, h);
      } else if dataSize <= 4 && spill.size == 8 {
        FreeHalf(spill, offset, h);
      } else {
        FreeWhole(spill, h);
      }
    }

    /** The first free store of a pinning array, or `|internalPointers|`. */
    method FindInternal(pinningArray: nat) returns (i: nat)
      requires ListsOk()
      ensures i <= |internalPointers|
      ensures i < |internalPointers| ==> internalPointers[i].pinningArray == Some(pinningArray)
      ensures forall j :: 0 <= j < i ==> internalPointers[j].pinningArray != Some(pinningArray)
    {
      i := 0;
      while i < |internalPointers| && internalPointers[i].pinningArray != Some(pinningArray)
        invariant i <= |internalPointers|
        invariant forall j :: 0 <= j < i ==> internalPointers[j].pinningArray != Some(pinningArray)
      {
        i := i + 1;
      }
    }

    method RemoveInternal(spill: BackingStore)
      requires Valid()
      modifies this`internalPointers
      ensures Valid() && internalPointers == Without(old(internalPointers), spill) && spill !in internalPointers
    {
      hide SizesOk, OccupancyOk, IndicesOk, CollectedOk;
      WithoutOk(internalPointers, spill);
      internalPointers := Without(internalPointers, spill);
    }

    /** Internal pointers are not collected references, and their stores hold nothing else. */
    twostate lemma CollectedKeptInternal(h: Handle)
      requires old(CollectedOk()) && live == old(live) + {h} && !h.collected && h.store.IsInternalPointer()
      requires unchanged(`allSpills) && forall c :: c in allSpills ==> unchanged(c`collected, c`gcMapIndex)
      ensures CollectedOk()
    {
    }

    /** Occupy an internal-pointer store that is on no list. */
    method OccupyInternal(spill: BackingStore)
      requires Valid() && spill in allSpills && spill.IsInternalPointer() && !spill.IsOccupied() && Unlisted(spill)
      modifies spill`firstHalf, spill`secondHalf, this`live, this`firstOwner, this`secondOwner
      ensures Valid() && spill.firstHalf && spill.secondHalf
      ensures var h := Handle(spill, referenceSize, 0, false); h !in old(live) && live == old(live) + {h}
    {
      hide ListsOk, OccupancyOk, IndicesOk, CollectedOk;
      Own(spill, true, true, Handle(spill, referenceSize, 0, false));
      ListsKept(spill);
      CollectedKeptInternal(Handle(spill, referenceSize, 0, false));
    }

    /** A store for a pinning array that is on no list: the first free one of its own, or a new one. */
    method ChooseInternal(pinningArray: nat) returns (spill: BackingStore, ghost first: nat)
      requires Valid()
      modifies this`internalPointers, this`allSpills
      ensures Valid() && spill in allSpills && spill.pinningArray == Some(pinningArray) && !spill.IsOccupied() && Unlisted(spill)
      ensures first <= |old(internalPointers)|
      ensures forall j :: 0 <= j < first ==> old(internalPointers)[j].pinningArray != Some(pinningArray)
      ensures if first < |old(internalPointers)|
        then spill == old(internalPointers)[first] && allSpills == old(allSpills)
          && internalPointers == old(internalPointers)[..first] + old(internalPointers)[first + 1..]
        else fresh(spill) && internalPointers == old(internalPointers) && allSpills == old(allSpills) + {spill}
    {
      var i := FindInternal(pinningArray);
      first := i;
      if i < |internalPointers| {
        spill := internalPointers[i];
        assert spill in old(internalPointers);
        WithoutLeavesOut(internalPointers, spill);
        RemoveInternal(spill);
      } else {
        spill := NewSpill(referenceSize, Some(pinningArray));
      }
    }

    /** A reference-sized store for an internal pointer, never shared between pinning arrays: the `first` free one
        of its own, or a new one. */
    method AllocateInternalPointerSpill(pinningArray: nat) returns (spill: BackingStore, ghost first: nat)
      requires Valid()
      modifies this`internalPointers, this`allSpills, this`live, this`firstOwner, this`secondOwner
      modifies allSpills`firstHalf, allSpills`secondHalf
      ensures Valid() && spill.pinningArray == Some(pinningArray)
      ensures var h := Handle(spill, referenceSize, 0, false); h !in old(live) && live == old(live) + {h}
      ensures first <= |old(internalPointers)|
      ensures forall j :: 0 <= j < first ==> old(internalPointers)[j].pinningArray != Some(pinningArray)
      ensures if first < |old(internalPointers)|
        then spill == old(internalPointers)[first] && allSpills == old(allSpills)
          && internalPointers == old(internalPointers)[..first] + old(internalPointers)[first + 1..]
        else fresh(spill) && internalPointers == old(internalPointers) && allSpills == old(allSpills) + {spill}
    {
      hide SizesOk, ListsOk, OccupancyOk, IndicesOk, CollectedOk;
      spill, first := ChooseInternal(pinningArray);
      OccupyInternal(spill);
    }

    /** Forget every free store. */
    method JettisonAllSpills()
      requires Valid()
      modifies this`spill4, this`spill8, this`spill16, this`internalPointers
      ensures Valid() && spill4 == spill8 == spill16 == internalPointers == []
    {
      hide SizesOk, OccupancyOk, IndicesOk, CollectedOk;
      spill4, spill8, spill16, internalPointers := [], [], [], [];
    }

    method SetLocked(lock: bool)
      requires Valid()
      modifies this`locked
      ensures Valid() && locked == lock
    {
      hide SizesOk, ListsOk, OccupancyOk, IndicesOk, CollectedOk;
      locked := lock;
    }

    /** The spill part of the GC map of an instruction: starting from the bits of the locals, mark the
        index of every occupied store that contains a collected reference.  On Power and Z a store already
        reloaded is skipped in the hot path of an out-of-line section. */
    method MarkSpills(bits: array<bool>, outOfLineHotPath: bool)
      requires Valid() && bits.Length == slotsMapped
      modifies bits
      ensures forall k :: 0 <= k < firstSpillIndex ==> bits[k] == old(bits[k])
      ensures forall b :: b in allSpills && b.gcMapIndex >= 0 ==> firstSpillIndex <= b.gcMapIndex < bits.Length
      ensures forall b :: b in allSpills && b.gcMapIndex >= 0 ==>
        bits[b.gcMapIndex] == (old(bits[b.gcMapIndex])
          || (b.collected && (b.firstHalf || b.secondHalf) && (b.maxSpillDepth != 0 || !outOfLineHotPath)))
      ensures referenceSize == 8 ==> forall b :: b in allSpills && b.gcMapIndex >= 0 ==>
        bits[b.gcMapIndex] == (old(bits[b.gcMapIndex])
          || ((exists h :: h in live && h.store == b && h.collected) && (b.maxSpillDepth != 0 || !outOfLineHotPath)))
      ensures forall k :: firstSpillIndex <= k < bits.Length && bits[k] != old(bits[k]) ==>
        exists b :: b in allSpills && b.gcMapIndex == k
    {
      hide SizesOk, ListsOk, OccupancyOk, CollectedOk;
      for i := 0 to |collectedSpills|
        invariant forall k :: 0 <= k < firstSpillIndex ==> bits[k] == old(bits[k])
        invariant forall j :: 0 <= j < i ==>
          bits[collectedSpills[j].gcMapIndex] == (old(bits[collectedSpills[j].gcMapIndex])
            || (collectedSpills[j].collected && (collectedSpills[j].firstHalf || collectedSpills[j].secondHalf)
                && (collectedSpills[j].maxSpillDepth != 0 || !outOfLineHotPath)))
        invariant forall j :: i <= j < |collectedSpills| ==>
          bits[collectedSpills[j].gcMapIndex] == old(bits[collectedSpills[j].gcMapIndex])
        invariant forall k :: firstSpillIndex <= k < bits.Length && bits[k] != old(bits[k]) ==>
          exists j :: 0 <= j < i && collectedSpills[j].gcMapIndex == k
      {
        var b := collectedSpills[i];
        if b.collected && !b.IsInternalPointer() && b.IsOccupied() {
          if !(b.maxSpillDepth == 0 && outOfLineHotPath) {
            bits[b.gcMapIndex] := true;
          }
        }
      }
      forall b | b in allSpills && b.gcMapIndex >= 0
        ensures exists j :: 0 <= j < |collectedSpills| && collectedSpills[j] == b
      {
        assert b in collectedSpills;
      }
      if referenceSize == 8 {
        forall b | b in allSpills
          ensures b.collected && (b.firstHalf || b.secondHalf) <==> exists h :: h in live && h.store == b && h.collected
        {
          MarkedIsLiveReference(b);
        }
      }
    }

    /** With 8-byte references a store is marked exactly when a live allocation in it is a collected
        reference, and the store of such an allocation has a GC index of its own. */
    lemma MarkedIsLiveReference(b: BackingStore)
      requires Valid() && referenceSize == 8 && b in allSpills
      ensures b.collected && (b.firstHalf || b.secondHalf) <==> exists h :: h in live && h.store == b && h.collected
      ensures (exists h :: h in live && h.store == b && h.collected) ==>
        && firstSpillIndex <= b.gcMapIndex < slotsMapped
        && forall c :: c in allSpills && c != b ==> c.gcMapIndex != b.gcMapIndex
    {
      if b.firstHalf {
        assert firstOwner[b] in live;
      }
      if b.secondHalf {
        assert secondOwner[b] in live;
      }
      if h :| h in live && h.store == b && h.collected {
        assert UsesFirst(h) || UsesSecond(h);
      }
      if b.gcMapIndex >= 0 {
        assert b in collectedSpills;
        forall c | c in allSpills && c != b && c.gcMapIndex >= 0
          ensures c.gcMapIndex != b.gcMapIndex
        {
          assert c in collectedSpills;
        }
      }
    }
  }

  /** A fresh allocator after an 8-byte spill has been made and freed. */
  method OneFreeStore() returns (allocator: SpillAllocator)
    ensures fresh(allocator) && fresh(allocator.allSpills) && allocator.Valid() && allocator.referenceSize == 8
    ensures allocator.spill4 == [] && |allocator.spill8| == 1
  {
    hide SpillAllocator.SizesOk, SpillAllocator.ListsOk, SpillAllocator.OccupancyOk;
    hide SpillAllocator.IndicesOk, SpillAllocator.CollectedOk;
    allocator := new SpillAllocator(8, 0);
    var first, offset := allocator.AllocateSpill(8, false, None, false, false, true, true);
    allocator.FreeSpill(first, 8, 0, false);
  }

  /** A 12-byte request can be handed an 8-byte store: the size test only excludes 16. */
  method TwelveBytesInEight() returns (allocator: SpillAllocator, spill: BackingStore)
    ensures allocator.Valid() && Handle(spill, 12, 0, false) in allocator.live && spill.size == 8
  {
    allocator := OneFreeStore();
    var offset;
    spill, offset := allocator.AllocateSpill(12, false, None, true, false, true, true);
  }
}
