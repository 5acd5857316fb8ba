/** Slots for pinning arrays and the internal pointers derived from them, and which pinning arrays are needed
for registers only. */
module PinningArrays {
  import opened Options

  class AutomaticSymbol {
    const size: nat
    const isPinningArrayPointer: bool
    const isInternalPointer: bool
    const isInitializedReference: bool
    const pinningArray: AutomaticSymbol?  // of an internal pointer
    var gcMapIndex: int

    constructor (size: nat, isPinningArrayPointer: bool, isInternalPointer: bool, isInitializedReference: bool,
        pinningArray: AutomaticSymbol?)
      ensures this.size == size && this.pinningArray == pinningArray && this.isInternalPointer == isInternalPointer
      ensures this.isPinningArrayPointer == isPinningArrayPointer && this.isInitializedReference == isInitializedReference
    {
      this.size, this.isPinningArrayPointer, this.isInternalPointer := size, isPinningArrayPointer, isInternalPointer;
      this.isInitializedReference, this.pinningArray, gcMapIndex := isInitializedReference, pinningArray, -1;
    }
  }

  class InternalPointerPair {
    const pinningArray: AutomaticSymbol
    const internalPointer: AutomaticSymbol

    constructor (pinningArray: AutomaticSymbol, internalPointer: AutomaticSymbol)
      ensures this.pinningArray == pinningArray && this.internalPointer == internalPointer
    {
      this.pinningArray, this.internalPointer := pinningArray, internalPointer;
    }
  }

  // ----- slots

  /** The number of slots given to a symbol. */
  function Width(size: nat, reference: nat): nat
    requires reference > 0
  {
    var rounded := (size + 3) / 4 * 4;
    (if rounded == 0 then reference else rounded) / reference
  }

  /** The slots are the whole references in the size rounded up to four, or one for an empty symbol.  They hold the
      symbol exactly when the rounded size is a whole number of references. */
  lemma WideEnough(size: nat, reference: nat)
    requires reference == 4 || reference == 8
    ensures size == 0 ==> Width(size, reference) == 1
    ensures size > 0 ==> Width(size, reference) * reference <= (size + 3) / 4 * 4 < (Width(size, reference) + 1) * reference
    ensures (Width(size, reference) * reference >= size && Width(size, reference) > 0) <==> (size + 3) / 4 * 4 % reference == 0
  {
    var units := (size + 3) / 4;
    if reference == 4 {
      assert 4 * units / 4 == units;
    } else {
      assert 4 * units / 8 == units / 2 && 4 * units % 8 == 4 * (units % 2);
    }
  }

  /** The slots of the symbols before the i-th that are wanted. */
  ghost function SlotsBefore(autos: seq<AutomaticSymbol>, pinning: bool, i: nat, reference: nat): nat
    requires i <= |autos| && reference > 0
  {
    if i == 0 then 0
    else SlotsBefore(autos, pinning, i - 1, reference) +
         if Wanted(autos[i - 1], pinning) then Width(autos[i - 1].size, reference) else 0
  }

  predicate Wanted(a: AutomaticSymbol, pinning: bool) {
    if pinning then a.isPinningArrayPointer else a.isInternalPointer
  }

  lemma {:induction false} SlotsGrow(autos: seq<AutomaticSymbol>, pinning: bool, i: nat, j: nat, reference: nat)
    requires i < j <= |autos| && reference > 0
    ensures SlotsBefore(autos, pinning, i, reference) <= SlotsBefore(autos, pinning, j, reference)
    ensures Wanted(autos[i], pinning) ==>
      SlotsBefore(autos, pinning, i, reference) + Width(autos[i].size, reference) <= SlotsBefore(autos, pinning, j, reference)
    decreases j
  {
    if i + 1 < j {
      SlotsGrow(autos, pinning, i, j - 1, reference);
    }
  }

  // ----- lists

  ghost predicate NoDuplicates<T>(s: seq<T>) {
    forall i, j :: 0 <= i < j < |s| ==> s[i] != s[j]
  }

  function WithoutFirst(s: seq<AutomaticSymbol>, x: AutomaticSymbol): seq<AutomaticSymbol> {
    if s == [] then [] else if s[0] == x then s[1..] else [s[0]] + WithoutFirst(s[1..], x)
  }

  ghost function Members(s: seq<AutomaticSymbol>): set<AutomaticSymbol> {
    set a | a in s
  }

  lemma {:induction false} WithoutFirstMember(s: seq<AutomaticSymbol>, x: AutomaticSymbol, a: AutomaticSymbol)
    requires NoDuplicates(s)
    ensures a in WithoutFirst(s, x) <==> a in s && a != x
  {
    if s != [] {
      assert s == [s[0]] + s[1..];
      if s[0] != x {
        WithoutFirstMember(s[1..], x, a);
      }
    }
  }

  lemma {:induction false} WithoutFirstDistinct(s: seq<AutomaticSymbol>, x: AutomaticSymbol)
    requires NoDuplicates(s)
    ensures NoDuplicates(WithoutFirst(s, x))
  {
    if s != [] && s[0] != x {
      WithoutFirstDistinct(s[1..], x);
      WithoutFirstMember(s[1..], x, s[0]);
      var rest := WithoutFirst(s[1..], x);
      assert s[0] !in rest;
      Prepended(s[0], rest);
    }
  }

  lemma Prepended(a: AutomaticSymbol, rest: seq<AutomaticSymbol>)
    requires a !in rest && NoDuplicates(rest)
    ensures NoDuplicates([a] + rest)
  {
  }

  lemma WithoutFirstRemoves(s: seq<AutomaticSymbol>, x: AutomaticSymbol)
    requires NoDuplicates(s)
    ensures NoDuplicates(WithoutFirst(s, x)) && Members(WithoutFirst(s, x)) == Members(s) - {x}
  {
    WithoutFirstDistinct(s, x);
    hide WithoutFirst, NoDuplicates;
    forall a | a in WithoutFirst(s, x) + s ensures a in WithoutFirst(s, x) <==> a in s && a != x {
      WithoutFirstMember(s, x, a);
    }
  }

  lemma MembersNext(s: seq<AutomaticSymbol>, i: nat)
    requires i < |s|
    ensures Members(s[..i + 1]) == Members(s[..i]) + {s[i]}
  {
    assert s[..i + 1] == s[..i] + [s[i]];
  }

  ghost function Pinning(autos: seq<AutomaticSymbol>): set<AutomaticSymbol> {
    set a | a in autos && a.isPinningArrayPointer
  }

  /** The pinning arrays some internal pointer on the stack is derived from. */
  ghost function Used(autos: seq<AutomaticSymbol>): set<AutomaticSymbol> {
    set a | a in autos && a.isInternalPointer && a.pinningArray != null :: a.pinningArray
  }

  ghost function Bases(pairs: seq<InternalPointerPair>): set<AutomaticSymbol> {
    set p | p in pairs :: p.pinningArray
  }

  /** In front of the old pairs there is one for each internal pointer, with its own pinning array. */
  ghost predicate Derived(pairs: seq<InternalPointerPair>, autos: seq<AutomaticSymbol>, before: seq<InternalPointerPair>) {
    && |before| <= |pairs| && pairs[|pairs| - |before|..] == before
    && (forall k :: 0 <= k < |pairs| - |before| ==>
          && pairs[k].internalPointer in autos && pairs[k].internalPointer.isInternalPointer
          && pairs[k].internalPointer.pinningArray == pairs[k].pinningArray)
    && (forall j, k :: 0 <= j < k < |pairs| - |before| ==> pairs[j].internalPointer != pairs[k].internalPointer)
    && (forall a :: a in autos && a.isInternalPointer ==> exists k :: 0 <= k < |pairs| - |before| && pairs[k].internalPointer == a)
  }

  /** A pair for the symbol has been put in front, if it is an internal pointer. */
  ghost predicate OneMore(pairs: seq<InternalPointerPair>, more: seq<InternalPointerPair>, a: AutomaticSymbol) {
    if a.isInternalPointer
    then |more| == |pairs| + 1 && more[1..] == pairs && more[0].internalPointer == a && more[0].pinningArray == a.pinningArray
    else more == pairs
  }

  lemma DerivedNext(pairs: seq<InternalPointerPair>, more: seq<InternalPointerPair>, autos: seq<AutomaticSymbol>, i: nat,
      before: seq<InternalPointerPair>)
    requires i < |autos| && NoDuplicates(autos) && Derived(pairs, autos[..i], before) && OneMore(pairs, more, autos[i])
    ensures Derived(more, autos[..i + 1], before)
  {
    assert autos[..i + 1] == autos[..i] + [autos[i]] && autos[i] !in autos[..i];
    if autos[i].isInternalPointer {
      DerivedMore(pairs, more, autos[..i], autos[i], before);
    }
  }

  lemma DerivedMore(pairs: seq<InternalPointerPair>, more: seq<InternalPointerPair>, autos: seq<AutomaticSymbol>,
      a: AutomaticSymbol, before: seq<InternalPointerPair>)
    requires Derived(pairs, autos, before) && a !in autos && a.isInternalPointer && OneMore(pairs, more, a)
    ensures Derived(more, autos + [a], before)
  {
    var n := |pairs| - |before|;
    assert more[n + 1..] == pairs[n..];
    assert forall k :: 1 <= k < |more| ==> more[k] == pairs[k - 1];
    forall x | x in autos + [a] && x.isInternalPointer ensures exists k :: 0 <= k < n + 1 && more[k].internalPointer == x {
      if x in autos {
        var k :| 0 <= k < n && pairs[k].internalPointer == x;
        assert more[k + 1].internalPointer == x;
      }
    }
  }

  /** A pinning array is for registers only if it was before or is one of these, and no internal pointer uses it. */
  ghost predicate RegisterOnlyAre(now: seq<AutomaticSymbol>, before: seq<AutomaticSymbol>, autos: seq<AutomaticSymbol>) {
    && (forall a :: a in now ==> a in before || (a in autos && a.isPinningArrayPointer))
    && (forall a, b :: a in now && b in autos && b.isInternalPointer ==> b.pinningArray != a)
    && (forall a :: a in before + autos && (a in before || a.isPinningArrayPointer) ==>
          a in now || exists b :: b in autos && b.isInternalPointer && b.pinningArray == a)
  }

  lemma RegisterOnlyMeans(now: seq<AutomaticSymbol>, before: seq<AutomaticSymbol>, autos: seq<AutomaticSymbol>)
    requires Members(now) == Members(before) + Pinning(autos) - Used(autos)
    requires forall a :: a in autos && a.isInternalPointer ==> a.pinningArray != null
    ensures RegisterOnlyAre(now, before, autos)
  {
    forall a | a in now ensures a in before || (a in autos && a.isPinningArrayPointer) {
      assert a in Members(now);
    }
    forall a, b | a in now && b in autos && b.isInternalPointer ensures b.pinningArray != a {
      assert a in Members(now) && b.pinningArray in Used(autos);
    }
    forall a | a in before + autos && (a in before || a.isPinningArrayPointer)
      ensures a in now || exists b :: b in autos && b.isInternalPointer && b.pinningArray == a
    {
      if a !in now {
        assert a in Members(before) + Pinning(autos) && a !in Members(now);
        assert a in Used(autos);
      }
    }
  }

  lemma NothingMeans(autos: seq<AutomaticSymbol>)
    requires forall a :: a in autos && a.isInternalPointer ==> a.pinningArray != null
    ensures Pinning(autos) == {} && Used(autos) == {} <==> forall a :: a in autos ==> !a.isPinningArrayPointer && !a.isInternalPointer
    ensures SomeUninitialized(autos) <==> exists a :: a in autos && a.isPinningArrayPointer && !a.isInitializedReference
  {
    if a :| a in autos && a.isPinningArrayPointer && !a.isInitializedReference {
      var k :| 0 <= k < |autos| && autos[k] == a;
    }
    if a :| a in autos && (a.isPinningArrayPointer || a.isInternalPointer) {
      assert a in Pinning(autos) || a.pinningArray in Used(autos);
    }
  }

  lemma PinningNext(autos: seq<AutomaticSymbol>, i: nat)
    requires i < |autos|
    ensures Pinning(autos[..i + 1]) == Pinning(autos[..i]) + if autos[i].isPinningArrayPointer then {autos[i]} else {}
  {
    assert autos[..i + 1] == autos[..i] + [autos[i]];
  }

  lemma UsedNext(autos: seq<AutomaticSymbol>, i: nat)
    requires i < |autos| && (autos[i].isInternalPointer ==> autos[i].pinningArray != null)
    ensures Used(autos[..i + 1]) == Used(autos[..i]) + if autos[i].isInternalPointer then {autos[i].pinningArray} else {}
  {
    assert autos[..i + 1] == autos[..i] + [autos[i]];
    var more := if autos[i].isInternalPointer then {autos[i].pinningArray} else {};
    forall x | x in Used(autos[..i]) + more ensures x in Used(autos[..i + 1]) {
      if x in Used(autos[..i]) {
        var a :| a in autos[..i] && a.isInternalPointer && a.pinningArray == x;
        assert a in autos[..i + 1];
      } else {
        assert autos[i] in autos[..i + 1];
      }
    }
  }

  ghost predicate SomeUninitialized(autos: seq<AutomaticSymbol>) {
    exists k :: 0 <= k < |autos| && autos[k].isPinningArrayPointer && !autos[k].isInitializedReference
  }

  lemma UninitializedNext(autos: seq<AutomaticSymbol>, i: nat)
    requires i < |autos|
    ensures SomeUninitialized(autos[..i + 1]) <==>
      SomeUninitialized(autos[..i]) || (autos[i].isPinningArrayPointer && !autos[i].isInitializedReference)
  {
    var next := autos[..i + 1];
    if SomeUninitialized(autos[..i]) {
      var k :| 0 <= k < i && autos[..i][k].isPinningArrayPointer && !autos[..i][k].isInitializedReference;
      assert next[k] == autos[k];
    }
    assert next[i] == autos[i];
    if SomeUninitialized(next) {
      var k :| 0 <= k < i + 1 && next[k].isPinningArrayPointer && !next[k].isInitializedReference;
      assert k < i ==> autos[..i][k] == next[k];
    }
  }

  lemma NothingYet(autos: seq<AutomaticSymbol>)
    ensures Pinning(autos[..0]) == {} && Used(autos[..0]) == {} && !SomeUninitialized(autos[..0])
  {
  }

  ghost predicate Mapped(a: AutomaticSymbol) {
    a.isPinningArrayPointer || a.isInternalPointer
  }

  /** The slots of the mapped symbols are within bounds and no two overlap. */
  ghost predicate Placed(autos: seq<AutomaticSymbol>, reference: nat, low: nat, high: nat)
    requires reference > 0
    reads autos`gcMapIndex
  {
    && (forall k :: 0 <= k < |autos| && Mapped(autos[k]) ==>
          low <= autos[k].gcMapIndex && autos[k].gcMapIndex + Width(autos[k].size, reference) <= high)
    && (forall j, k :: 0 <= j < k < |autos| && Mapped(autos[j]) && Mapped(autos[k]) ==>
          Apart(autos[j], autos[k], reference))
  }

  ghost predicate Apart(a: AutomaticSymbol, b: AutomaticSymbol, reference: nat)
    requires reference > 0
    reads a`gcMapIndex, b`gcMapIndex
  {
    || a.gcMapIndex + Width(a.size, reference) <= b.gcMapIndex
    || b.gcMapIndex + Width(b.size, reference) <= a.gcMapIndex
  }

  /** The slots the symbols have at one moment. */
  ghost function Indices(autos: seq<AutomaticSymbol>): (r: seq<int>)
    reads autos`gcMapIndex
    ensures |r| == |autos| && forall k :: 0 <= k < |autos| ==> r[k] == autos[k].gcMapIndex
  {
    if autos == [] then [] else Indices(autos[..|autos| - 1]) + [autos[|autos| - 1].gcMapIndex]
  }

  /** Of the first `i` symbols the wanted ones have got their slots; the others are as they were. */
  ghost predicate IndexedUpTo(autos: seq<AutomaticSymbol>, was: seq<int>, pinning: bool, i: nat, first: nat, reference: nat)
    reads autos`gcMapIndex
  {
    && i <= |autos| == |was| && reference > 0
    && forall k :: 0 <= k < |autos| ==>
         autos[k].gcMapIndex == (if k < i && Wanted(autos[k], pinning) then first + SlotsBefore(autos, pinning, k, reference) else was[k])
  }

  lemma NothingIndexed(autos: seq<AutomaticSymbol>, pinning: bool, first: nat, reference: nat)
    requires reference > 0
    ensures IndexedUpTo(autos, Indices(autos), pinning, 0, first, reference)
    ensures SlotsBefore(autos, pinning, 0, reference) == 0
  {
  }

  lemma IndexedMeans(autos: seq<AutomaticSymbol>, was: seq<int>, pinning: bool, first: nat, reference: nat)
    requires IndexedUpTo(autos, was, pinning, |autos|, first, reference)
    ensures |was| == |autos| && reference > 0
    ensures forall k :: 0 <= k < |autos| ==>
      autos[k].gcMapIndex == (if Wanted(autos[k], pinning) then first + SlotsBefore(autos, pinning, k, reference) else was[k])
  {
  }

  /** Give the next symbol its slots, if it is wanted. */
  method PlaceNext(autos: seq<AutomaticSymbol>, pinning: bool, i: nat, ghost first: nat, index: nat, reference: nat, ghost was: seq<int>)
    returns (next: nat)
    requires i < |autos| && NoDuplicates(autos)
    requires IndexedUpTo(autos, was, pinning, i, first, reference) && index == first + SlotsBefore(autos, pinning, i, reference)
    modifies {autos[i]}`gcMapIndex
    ensures IndexedUpTo(autos, was, pinning, i + 1, first, reference)
    ensures next == first + SlotsBefore(autos, pinning, i + 1, reference)
  {
    next := index;
    if Wanted(autos[i], pinning) {
      autos[i].gcMapIndex := index;
      var roundedSize := (autos[i].size + 3) / 4 * 4;
      if roundedSize == 0 {
        roundedSize := reference;
      }
      next := index + roundedSize / reference;
    }
  }

  lemma PlacedApart(autos: seq<AutomaticSymbol>, reference: nat, first: nat)
    requires reference > 0 && forall a :: a in autos && a.isInternalPointer ==> !a.isPinningArrayPointer
    requires forall k :: 0 <= k < |autos| && Wanted(autos[k], true) ==>
      autos[k].gcMapIndex == first + SlotsBefore(autos, true, k, reference)
    requires forall k :: 0 <= k < |autos| && Wanted(autos[k], false) ==>
      autos[k].gcMapIndex == first + SlotsBefore(autos, true, |autos|, reference) + SlotsBefore(autos, false, k, reference)
    ensures Placed(autos, reference, first, first + SlotsBefore(autos, true, |autos|, reference) + SlotsBefore(autos, false, |autos|, reference))
  {
    hide Width, SlotsBefore;
    forall k | 0 <= k < |autos| && Mapped(autos[k])
      ensures first <= autos[k].gcMapIndex
      ensures autos[k].gcMapIndex + Width(autos[k].size, reference) <=
        first + SlotsBefore(autos, true, |autos|, reference) + SlotsBefore(autos, false, |autos|, reference)
    {
      SlotsGrow(autos, Wanted(autos[k], true), k, |autos|, reference);
    }
    forall j, k | 0 <= j < k < |autos| && Mapped(autos[j]) && Mapped(autos[k]) ensures Apart(autos[j], autos[k], reference) {
      SlotsGrow(autos, true, j, k, reference);
      SlotsGrow(autos, false, j, k, reference);
      SlotsGrow(autos, true, j, |autos|, reference);
      SlotsGrow(autos, true, k, |autos|, reference);
    }
  }

  /** What the two loops change in the atlas. */
  datatype AtlasState = AtlasState(registerOnly: set<AutomaticSymbol>, pairs: seq<InternalPointerPair>, noMap: bool, uninitialized: bool)

  class GCStackAtlas {
    var numberOfSlotsMapped: nat
    var indexOfFirstInternalPtr: nat
    var internalPointerPairs: Option<seq<InternalPointerPair>>  // None: no internal pointer map
    var pinningArrayPtrsForInternalPtrRegs: seq<AutomaticSymbol>
    var hasUninitializedPinningArrayPointer: bool

    /** The pairs, an absent map having none. */
    ghost function Pairs(): seq<InternalPointerPair>
      reads `internalPointerPairs
    {
      if internalPointerPairs.None? then [] else internalPointerPairs.value
    }

    ghost function RegisterOnly(): set<AutomaticSymbol>
      reads `pinningArrayPtrsForInternalPtrRegs
    {
      Members(pinningArrayPtrsForInternalPtrRegs)
    }

    method AddPinningArrayPtrForInternalPtrReg(symbol: AutomaticSymbol)
      requires NoDuplicates(pinningArrayPtrsForInternalPtrRegs)
      modifies `pinningArrayPtrsForInternalPtrRegs
      ensures NoDuplicates(pinningArrayPtrsForInternalPtrRegs) && RegisterOnly() == old(RegisterOnly()) + {symbol}
    {
      if symbol !in pinningArrayPtrsForInternalPtrRegs {
        pinningArrayPtrsForInternalPtrRegs := [symbol] + pinningArrayPtrsForInternalPtrRegs;
      }
    }

    method RemovePinningArrayPtrForInternalPtrReg(symbol: AutomaticSymbol)
      requires NoDuplicates(pinningArrayPtrsForInternalPtrRegs)
      modifies `pinningArrayPtrsForInternalPtrRegs
      ensures NoDuplicates(pinningArrayPtrsForInternalPtrRegs) && RegisterOnly() == old(RegisterOnly()) - {symbol}
    {
      WithoutFirstRemoves(pinningArrayPtrsForInternalPtrRegs, symbol);
      pinningArrayPtrsForInternalPtrRegs := WithoutFirst(pinningArrayPtrsForInternalPtrRegs, symbol);
    }

    /** The atlas after the first `i` symbols of the first loop. */
    ghost predicate PinningMapped(autos: seq<AutomaticSymbol>, i: nat, before: AtlasState)
      requires i <= |autos|
      reads `internalPointerPairs, `pinningArrayPtrsForInternalPtrRegs, `hasUninitializedPinningArrayPointer
    {
      && NoDuplicates(pinningArrayPtrsForInternalPtrRegs)
      && RegisterOnly() == before.registerOnly + Pinning(autos[..i]) && Pairs() == before.pairs
      && (internalPointerPairs.None? <==> before.noMap && Pinning(autos[..i]) == {})
      && (hasUninitializedPinningArrayPointer <==> before.uninitialized || SomeUninitialized(autos[..i]))
    }

    ghost predicate PointersMapped(autos: seq<AutomaticSymbol>, i: nat, before: AtlasState)
      requires i <= |autos|
      reads `internalPointerPairs, `pinningArrayPtrsForInternalPtrRegs
    {
      && NoDuplicates(pinningArrayPtrsForInternalPtrRegs) && NoDuplicates(Pairs())
      && RegisterOnly() == before.registerOnly - Used(autos[..i])
      && Bases(Pairs()) == Bases(before.pairs) + Used(autos[..i])
      && (internalPointerPairs.None? <==> before.noMap && Used(autos[..i]) == {})
    }

    ghost function State(): AtlasState
      reads `internalPointerPairs, `pinningArrayPtrsForInternalPtrRegs, `hasUninitializedPinningArrayPointer
    {
      AtlasState(RegisterOnly(), Pairs(), internalPointerPairs.None?, hasUninitializedPinningArrayPointer)
    }

    /** What the first loop does to the atlas for one symbol. */
    method NotePinningArray(autos: seq<AutomaticSymbol>, i: nat, ghost before: AtlasState)
      requires i < |autos| && PinningMapped(autos, i, before)
      modifies `internalPointerPairs, `pinningArrayPtrsForInternalPtrRegs, `hasUninitializedPinningArrayPointer
      ensures PinningMapped(autos, i + 1, before)
    {
      PinningNext(autos, i);
      UninitializedNext(autos, i);
      hide Pinning, SomeUninitialized, Members, NoDuplicates;
      var local := autos[i];
      if local.isPinningArrayPointer {
        if !local.isInitializedReference {
          hasUninitializedPinningArrayPointer := true;
        }
        if internalPointerPairs.None? {
          internalPointerPairs := Some([]);
        }
        AddPinningArrayPtrForInternalPtrReg(local);
      }
    }

    method NoteInternalPointer(autos: seq<AutomaticSymbol>, i: nat, ghost before: AtlasState)
      requires i < |autos| && PointersMapped(autos, i, before)
      requires autos[i].isInternalPointer ==> autos[i].pinningArray != null
      modifies `internalPointerPairs, `pinningArrayPtrsForInternalPtrRegs
      ensures PointersMapped(autos, i + 1, before) && OneMore(old(Pairs()), Pairs(), autos[i])
    {
      UsedNext(autos, i);
      hide Used, Bases, Members, NoDuplicates, SomeUninitialized, Pinning;
      var local := autos[i];
      if local.isInternalPointer {
        AddInternalPointerPair(local.pinningArray, local);
        assert OneMore(old(Pairs()), Pairs(), autos[i]);
        hide OneMore;
        RemovePinningArrayPtrForInternalPtrReg(local.pinningArray);
      }
    }

    /** First loop: slots for the pinning arrays, all of them taken to be for registers only. */
    method MapPinningArrays(autos: seq<AutomaticSymbol>, reference: nat, first: nat) returns (index: nat)
      requires reference > 0 && NoDuplicates(autos) && NoDuplicates(pinningArrayPtrsForInternalPtrRegs)
      modifies `internalPointerPairs, `pinningArrayPtrsForInternalPtrRegs, `hasUninitializedPinningArrayPointer
      modifies autos`gcMapIndex
      ensures index == first + SlotsBefore(autos, true, |autos|, reference)
      ensures IndexedUpTo(autos, old(Indices(autos)), true, |autos|, first, reference)
      ensures NoDuplicates(pinningArrayPtrsForInternalPtrRegs) && RegisterOnly() == old(RegisterOnly()) + Pinning(autos)
      ensures Pairs() == old(Pairs())
      ensures internalPointerPairs.None? <==> old(internalPointerPairs).None? && Pinning(autos) == {}
      ensures hasUninitializedPinningArrayPointer <==> old(hasUninitializedPinningArrayPointer) || SomeUninitialized(autos)
    {
      ghost var was, before := Indices(autos), State();
      index := first;
      var i := 0;
      hide PinningMapped, IndexedUpTo, SlotsBefore, NoDuplicates, Pinning, SomeUninitialized, Members;
      PinningNoneMapped(autos);
      NothingIndexed(autos, true, first, reference);
      while i < |autos|
        invariant 0 <= i <= |autos| && index == first + SlotsBefore(autos, true, i, reference)
        invariant IndexedUpTo(autos, was, true, i, first, reference) && PinningMapped(autos, i, before)
      {
        index := PlaceNext(autos, true, i, first, index, reference, was);
        NotePinningArray(autos, i, before);
        i := i + 1;
      }
      PinningAllMapped(autos, before);
    }

    lemma PinningNoneMapped(autos: seq<AutomaticSymbol>)
      requires NoDuplicates(pinningArrayPtrsForInternalPtrRegs)
      ensures PinningMapped(autos, 0, State())
    {
      NothingYet(autos);
    }

    lemma PinningAllMapped(autos: seq<AutomaticSymbol>, before: AtlasState)
      requires PinningMapped(autos, |autos|, before)
      ensures NoDuplicates(pinningArrayPtrsForInternalPtrRegs) && RegisterOnly() == before.registerOnly + Pinning(autos)
      ensures Pairs() == before.pairs && (internalPointerPairs.None? <==> before.noMap && Pinning(autos) == {})
      ensures hasUninitializedPinningArrayPointer <==> before.uninitialized || SomeUninitialized(autos)
    {
      assert autos[..|autos|] == autos;
    }

    /** Second loop: slots for the internal pointers, whose pinning arrays are then not for registers only. */
    method MapInternalPointers(autos: seq<AutomaticSymbol>, reference: nat, first: nat) returns (index: nat)
      requires reference > 0 && NoDuplicates(autos) && NoDuplicates(pinningArrayPtrsForInternalPtrRegs)
      requires NoDuplicates(Pairs()) && forall a :: a in autos && a.isInternalPointer ==> a.pinningArray != null
      modifies `internalPointerPairs, `pinningArrayPtrsForInternalPtrRegs, autos`gcMapIndex
      ensures index == first + SlotsBefore(autos, false, |autos|, reference)
      ensures IndexedUpTo(autos, old(Indices(autos)), false, |autos|, first, reference)
      ensures NoDuplicates(pinningArrayPtrsForInternalPtrRegs) && RegisterOnly() == old(RegisterOnly()) - Used(autos)
      ensures NoDuplicates(Pairs()) && Bases(Pairs()) == old(Bases(Pairs())) + Used(autos)
      ensures Derived(Pairs(), autos, old(Pairs()))
      ensures internalPointerPairs.None? <==> old(internalPointerPairs).None? && Used(autos) == {}
    {
      ghost var was, before := Indices(autos), State();
      index := first;
      var i := 0;
      hide PointersMapped, IndexedUpTo, SlotsBefore, NoDuplicates, Bases, Used, Members, Derived;
      PointersNoneMapped(autos);
      NothingIndexed(autos, false, first, reference);
      while i < |autos|
        invariant 0 <= i <= |autos| && index == first + SlotsBefore(autos, false, i, reference)
        invariant Derived(Pairs(), autos[..i], before.pairs)
        invariant IndexedUpTo(autos, was, false, i, first, reference) && PointersMapped(autos, i, before)
      {
        index := PlaceNext(autos, false, i, first, index, reference, was);
        ghost var pairs := Pairs();
        NoteInternalPointer(autos, i, before);
        DerivedNext(pairs, Pairs(), autos, i, before.pairs);
        i := i + 1;
      }
      PointersAllMapped(autos, before);
    }

    lemma PointersNoneMapped(autos: seq<AutomaticSymbol>)
      requires NoDuplicates(pinningArrayPtrsForInternalPtrRegs) && NoDuplicates(Pairs())
      ensures PointersMapped(autos, 0, State()) && Derived(Pairs(), autos[..0], Pairs())
    {
      NothingYet(autos);
    }

    lemma PointersAllMapped(autos: seq<AutomaticSymbol>, before: AtlasState)
      requires PointersMapped(autos, |autos|, before)
      ensures NoDuplicates(pinningArrayPtrsForInternalPtrRegs) && RegisterOnly() == before.registerOnly - Used(autos)
      ensures NoDuplicates(Pairs()) && Bases(Pairs()) == Bases(before.pairs) + Used(autos)
      ensures autos[..|autos|] == autos
      ensures internalPointerPairs.None? <==> before.noMap && Used(autos) == {}
    {
      assert autos[..|autos|] == autos;
    }

    method AddInternalPointerPair(pinningArray: AutomaticSymbol, internalPointer: AutomaticSymbol)
      requires NoDuplicates(Pairs())
      modifies `internalPointerPairs
      ensures NoDuplicates(Pairs()) && internalPointerPairs.Some?
      ensures Bases(Pairs()) == old(Bases(Pairs())) + {pinningArray}
      ensures |Pairs()| == |old(Pairs())| + 1 && Pairs()[1..] == old(Pairs())
      ensures Pairs()[0].pinningArray == pinningArray && Pairs()[0].internalPointer == internalPointer
    {
      if internalPointerPairs.None? {
        internalPointerPairs := Some([]);
      }
      var pair := new InternalPointerPair(pinningArray, internalPointer);
      PrependBase(Pairs(), pair);
      internalPointerPairs := Some([pair] + internalPointerPairs.value);
    }

    /** Every pinning array and internal pointer gets its own slots above those already mapped. */
    method RemapGCIndicesInInternalPtrFormat(autos: seq<AutomaticSymbol>, reference: nat)
      requires reference > 0 && NoDuplicates(autos)
      requires NoDuplicates(pinningArrayPtrsForInternalPtrRegs) && NoDuplicates(Pairs())
      requires forall a :: a in autos && a.isInternalPointer ==> a.pinningArray != null && !a.isPinningArrayPointer
      modifies this, autos`gcMapIndex
      ensures indexOfFirstInternalPtr == old(numberOfSlotsMapped) <= numberOfSlotsMapped
      ensures Placed(autos, reference, old(numberOfSlotsMapped), numberOfSlotsMapped)
      ensures numberOfSlotsMapped == old(numberOfSlotsMapped) +
        SlotsBefore(autos, true, |autos|, reference) + SlotsBefore(autos, false, |autos|, reference)
      ensures forall k :: 0 <= k < |autos| && !autos[k].isPinningArrayPointer && !autos[k].isInternalPointer ==>
        autos[k].gcMapIndex == old(autos[k].gcMapIndex)
      ensures NoDuplicates(pinningArrayPtrsForInternalPtrRegs) && NoDuplicates(Pairs())
      ensures RegisterOnly() == old(RegisterOnly()) + Pinning(autos) - Used(autos)
      ensures RegisterOnlyAre(pinningArrayPtrsForInternalPtrRegs, old(pinningArrayPtrsForInternalPtrRegs), autos)
      ensures Derived(Pairs(), autos, old(Pairs())) && Bases(Pairs()) == old(Bases(Pairs())) + Used(autos)
      ensures internalPointerPairs.None? <==>
        old(internalPointerPairs).None? && forall a :: a in autos ==> !a.isPinningArrayPointer && !a.isInternalPointer
      ensures hasUninitializedPinningArrayPointer <==>
        || old(hasUninitializedPinningArrayPointer)
        || exists a :: a in autos && a.isPinningArrayPointer && !a.isInitializedReference
    {
      NothingMeans(autos);
      hide *;
      RemapLoops(autos, reference);
      RegisterOnlyMeans(pinningArrayPtrsForInternalPtrRegs, old(pinningArrayPtrsForInternalPtrRegs), autos);
    }

    method RemapLoops(autos: seq<AutomaticSymbol>, reference: nat)
      requires reference > 0 && NoDuplicates(autos)
      requires NoDuplicates(pinningArrayPtrsForInternalPtrRegs) && NoDuplicates(Pairs())
      requires forall a :: a in autos && a.isInternalPointer ==> a.pinningArray != null && !a.isPinningArrayPointer
      modifies this, autos`gcMapIndex
      ensures indexOfFirstInternalPtr == old(numberOfSlotsMapped) <= numberOfSlotsMapped
      ensures Placed(autos, reference, old(numberOfSlotsMapped), numberOfSlotsMapped)
      ensures numberOfSlotsMapped == old(numberOfSlotsMapped) +
        SlotsBefore(autos, true, |autos|, reference) + SlotsBefore(autos, false, |autos|, reference)
      ensures forall k :: 0 <= k < |autos| && !autos[k].isPinningArrayPointer && !autos[k].isInternalPointer ==>
        autos[k].gcMapIndex == old(autos[k].gcMapIndex)
      ensures NoDuplicates(pinningArrayPtrsForInternalPtrRegs) && NoDuplicates(Pairs())
      ensures RegisterOnly() == Members(pinningArrayPtrsForInternalPtrRegs)
        == Members(old(pinningArrayPtrsForInternalPtrRegs)) + Pinning(autos) - Used(autos) == old(RegisterOnly()) + Pinning(autos) - Used(autos)
      ensures Derived(Pairs(), autos, old(Pairs())) && Bases(Pairs()) == old(Bases(Pairs())) + Used(autos)
      ensures internalPointerPairs.None? <==> old(internalPointerPairs).None? && Pinning(autos) == {} && Used(autos) == {}
      ensures hasUninitializedPinningArrayPointer <==> old(hasUninitializedPinningArrayPointer) || SomeUninitialized(autos)
    {
      hide Pinning, Used, SomeUninitialized, Bases, Placed, SlotsBefore, IndexedUpTo, Derived, Members;
      var first := numberOfSlotsMapped;
      ghost var was := Indices(autos);
      indexOfFirstInternalPtr := first;
      var middle := MapPinningArrays(autos, reference, first);
      ghost var between := Indices(autos);
      IndexedMeans(autos, was, true, first, reference);
      var index := MapInternalPointers(autos, reference, middle);
      IndexedMeans(autos, between, false, middle, reference);
      numberOfSlotsMapped := index;
      PlacedApart(autos, reference, first);
    }

    /** The number of pinning arrays that pin anything, each counted once. */
    method GetNumberOfDistinctPinningArrays() returns (n: nat)
      requires NoDuplicates(Pairs())
      ensures n == if internalPointerPairs.None? then 0 else |Bases(Pairs()) + RegisterOnly()|
      ensures internalPointerPairs.Some? ==>
        n == |(set p | p in internalPointerPairs.value :: p.pinningArray) + (set a | a in pinningArrayPtrsForInternalPtrRegs)|
    {
      n := 0;
      if internalPointerPairs.Some? {
        var seenArrays;
        n, seenArrays := CollectBases(internalPointerPairs.value);
        var autos := pinningArrayPtrsForInternalPtrRegs;
        ghost var bases := Bases(internalPointerPairs.value);
        var i := 0;
        while i < |autos|
          invariant 0 <= i <= |autos|
          invariant Members(seenArrays) == bases + Members(autos[..i])
          invariant n == |bases + Members(autos[..i])|
        {
          MembersNext(autos, i);
          ghost var before := bases + Members(autos[..i]);
          assert autos[i] in seenArrays <==> autos[i] in Members(seenArrays);
          if autos[i] !in seenArrays {
            assert bases + Members(autos[..i + 1]) == before + {autos[i]};
            seenArrays := [autos[i]] + seenArrays;
            n := n + 1;
          } else {
            assert bases + Members(autos[..i + 1]) == before;
          }
          i := i + 1;
        }
        assert autos[..|autos|] == autos;
      }
    }
  }

  /** From an empty atlas, every pinning array is counted once, whether it pins slots, registers or both. */
  method RemapThenCount(atlas: GCStackAtlas, autos: seq<AutomaticSymbol>, reference: nat) returns (n: nat)
    requires reference > 0 && NoDuplicates(autos)
    requires atlas.internalPointerPairs.None? && atlas.pinningArrayPtrsForInternalPtrRegs == []
    requires forall a :: a in autos && a.isInternalPointer ==> a.pinningArray != null && !a.isPinningArrayPointer
    modifies atlas, autos`gcMapIndex
    ensures n == |Pinning(autos) + Used(autos)|
    ensures Used(autos) <= Pinning(autos) ==> n == |Pinning(autos)|
  {
    NothingThere();
    hide Pinning, Used, Bases, Placed, SomeUninitialized;
    atlas.RemapGCIndicesInInternalPtrFormat(autos, reference);
    n := atlas.GetNumberOfDistinctPinningArrays();
    assert Used(autos) + (Pinning(autos) - Used(autos)) == Pinning(autos) + Used(autos);
    assert Used(autos) <= Pinning(autos) ==> Pinning(autos) + Used(autos) == Pinning(autos);
    assert {} + Used(autos) == Used(autos) && {} + Pinning(autos) == Pinning(autos);
  }

  lemma NothingThere()
    ensures Bases([]) == {} && Members([]) == {} && NoDuplicates<InternalPointerPair>([]) && NoDuplicates<AutomaticSymbol>([])
  {
  }

  /** First the pinning arrays that are the base of some internal pointer. */
  method CollectBases(pairs: seq<InternalPointerPair>) returns (n: nat, seenArrays: seq<AutomaticSymbol>)
    requires NoDuplicates(pairs)
    ensures Members(seenArrays) == Bases(pairs) && n == |Bases(pairs)|
  {
    var seenPairs: seq<InternalPointerPair> := [];
    n, seenArrays := 0, [];
    var i := 0;
    ghost var done := [];
    NothingCollected();
    hide Collected;
    while i < |pairs|
      invariant 0 <= i <= |pairs| && done == pairs[..i] && Collected(done, seenPairs, seenArrays, n)
    {
      var pair := pairs[i];
      NotBefore(pairs, i);
      NotCollected(done, seenPairs, seenArrays, n, pair);
      var seenBefore := SeenBefore(seenPairs, pair);
      assert done + [pair] == pairs[..i + 1];
      CollectNext(done, seenPairs, seenArrays, n, pair);
      done := done + [pair];
      if !seenBefore {
        seenArrays := [pair.pinningArray] + seenArrays;
        seenPairs := [pair] + seenPairs;
        n := n + 1;
      }
      i := i + 1;
    }
    assert pairs[..|pairs|] == pairs;
    CollectedAll(done, seenPairs, seenArrays, n);
  }

  /** The state of the search: the bases of the pairs done so far, each once. */
  ghost predicate Collected(done: seq<InternalPointerPair>, seenPairs: seq<InternalPointerPair>,
      seenArrays: seq<AutomaticSymbol>, n: nat)
  {
    SubsetOf(seenPairs, done) && Bases(seenPairs) == Bases(done) == Members(seenArrays) && n == |Members(seenArrays)|
  }

  lemma NothingCollected()
    ensures Collected([], [], [], 0)
  {
    NoBases();
  }

  lemma NotCollected(done: seq<InternalPointerPair>, seenPairs: seq<InternalPointerPair>,
      seenArrays: seq<AutomaticSymbol>, n: nat, pair: InternalPointerPair)
    requires Collected(done, seenPairs, seenArrays, n) && pair !in done
    ensures pair !in seenPairs
  {
    SubsetExcludes(seenPairs, done, pair);
  }

  lemma CollectedAll(done: seq<InternalPointerPair>, seenPairs: seq<InternalPointerPair>,
      seenArrays: seq<AutomaticSymbol>, n: nat)
    requires Collected(done, seenPairs, seenArrays, n)
    ensures Members(seenArrays) == Bases(done) && n == |Bases(done)|
  {
  }

  lemma CollectNext(done: seq<InternalPointerPair>, seenPairs: seq<InternalPointerPair>,
      seenArrays: seq<AutomaticSymbol>, n: nat, pair: InternalPointerPair)
    requires Collected(done, seenPairs, seenArrays, n)
    ensures if pair.pinningArray in Bases(seenPairs) then Collected(done + [pair], seenPairs, seenArrays, n)
      else Collected(done + [pair], [pair] + seenPairs, [pair.pinningArray] + seenArrays, n + 1)
  {
    hide Bases, Members, SubsetOf;
    AppendBase(done, pair);
    SubsetGrows(seenPairs, done, pair);
    PrependBase(seenPairs, pair);
    PrependMember(seenArrays, pair.pinningArray);
  }

  ghost predicate SubsetOf(a: seq<InternalPointerPair>, b: seq<InternalPointerPair>) {
    forall p :: p in a ==> p in b
  }

  lemma SubsetExcludes(a: seq<InternalPointerPair>, b: seq<InternalPointerPair>, p: InternalPointerPair)
    requires SubsetOf(a, b) && p !in b
    ensures p !in a
  {
  }

  lemma SubsetGrows(a: seq<InternalPointerPair>, b: seq<InternalPointerPair>, p: InternalPointerPair)
    requires SubsetOf(a, b)
    ensures SubsetOf(a, b + [p]) && SubsetOf([p] + a, b + [p])
  {
  }

  lemma NotBefore(pairs: seq<InternalPointerPair>, i: nat)
    requires NoDuplicates(pairs) && i < |pairs|
    ensures pairs[i] !in pairs[..i]
  {
  }

  lemma NoBases()
    ensures forall s: seq<InternalPointerPair> :: s == [] ==> Bases(s) == {}
    ensures Members([]) == {}
  {
  }

  lemma PrependMember(s: seq<AutomaticSymbol>, a: AutomaticSymbol)
    ensures Members([a] + s) == Members(s) + {a}
  {
  }

  method SeenBefore(seenPairs: seq<InternalPointerPair>, pair: InternalPointerPair) returns (seen: bool)
    requires pair !in seenPairs
    ensures seen <==> pair.pinningArray in Bases(seenPairs)
  {
    seen := false;
    var j := 0;
    while j < |seenPairs| && seenPairs[j] != pair
      invariant 0 <= j <= |seenPairs| && !seen
      invariant forall k :: 0 <= k < j ==> seenPairs[k].pinningArray != pair.pinningArray
    {
      if pair.pinningArray == seenPairs[j].pinningArray {
        seen := true;
        break;
      }
      j := j + 1;
    }
  }

  lemma AppendBase(pairs: seq<InternalPointerPair>, p: InternalPointerPair)
    ensures Bases(pairs + [p]) == Bases(pairs) + {p.pinningArray}
  {
    forall x | x in Bases(pairs) + {p.pinningArray} ensures x in Bases(pairs + [p]) {
      if x in Bases(pairs) {
        var q :| q in pairs && q.pinningArray == x;
        assert q in pairs + [p];
      } else {
        assert p in pairs + [p];
      }
    }
  }

  lemma PrependBase(pairs: seq<InternalPointerPair>, p: InternalPointerPair)
    ensures Bases([p] + pairs) == Bases(pairs) + {p.pinningArray}
  {
    forall x | x in Bases(pairs) + {p.pinningArray} ensures x in Bases([p] + pairs) {
      if x in Bases(pairs) {
        var q :| q in pairs && q.pinningArray == x;
        assert q in [p] + pairs;
      } else {
        assert p in [p] + pairs;
      }
    }
  }
}
