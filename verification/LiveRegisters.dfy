/** The live virtual registers of one kind: an intrusive doubly linked chain of entries, a pool of spare
entries, and the real registers each live register interferes with. */
module LiveRegisters {

  /** A set of real registers: a register mask as the set of its bits. */
  type Mask = set<nat>

  class Register {
    const low: Register?
    const high: Register?
    var isLive: bool
    var entry: Entry?
    var interference: Mask

    constructor (low: Register?, high: Register?)
      ensures this.low == low && this.high == high && !isLive
    {
      this.low, this.high := low, high;
      isLive, entry, interference := false, null, {};
    }

    predicate IsPair() {
      low != null && high != null
    }
  }

  class Entry {
    var prev: Entry?
    var next: Entry?
    var register: Register?
    var interference: Mask
    var association: Mask
    var nodeCount: int

    constructor ()
    {
      prev, next, register, interference, association, nodeCount := null, null, null, {}, {}, 0;
    }

    method Initialize(reg: Register)
      modifies `register, `interference, `association, `nodeCount
      ensures register == reg && interference == {} && association == {} && nodeCount == 0
    {
      register, interference, association, nodeCount := reg, {}, {}, 0;
    }
  }

  // ----- intrusive lists

  /** `head` starts a doubly linked list of exactly these entries, in this order. */
  ghost predicate IsList(head: Entry?, list: seq<Entry>)
    reads list`prev, list`next
  {
    && (list == [] ==> head == null)
    && (list != [] ==> head == list[0] && list[0].prev == null && list[|list| - 1].next == null)
    && (forall i {:trigger list[i].prev} :: 1 <= i < |list| ==> list[i].prev == list[i - 1])
    && (forall i {:trigger list[i].next} :: 0 <= i < |list| - 1 ==> list[i].next == list[i + 1])
    && (forall i, j :: 0 <= i < j < |list| ==> list[i] != list[j])
  }

  /** The lists have no entry in common. */
  ghost predicate Apart(a: seq<Entry>, b: seq<Entry>) {
    forall i, j :: 0 <= i < |a| && 0 <= j < |b| ==> a[i] != b[j]
  }

  lemma HeadOf(head: Entry?, list: seq<Entry>)
    requires IsList(head, list)
    ensures head == if list == [] then null else list[0]
  {
  }

  lemma Distinct(head: Entry?, list: seq<Entry>, k: nat)
    requires IsList(head, list) && k < |list|
    ensures Apart([list[k]], Removed(list, k))
  {
  }

  function Removed<T>(s: seq<T>, k: nat): seq<T>
    requires k < |s|
  {
    s[..k] + s[k + 1..]
  }

  /** The registers that are not among the dead. */
  ghost function Without(s: seq<Register>, dead: set<Register>): seq<Register> {
    if s == [] then [] else (if s[0] in dead then [] else [s[0]]) + Without(s[1..], dead)
  }

  lemma {:induction false} WithoutNone(s: seq<Register>, dead: set<Register>)
    requires forall r :: r in s ==> r !in dead
    ensures Without(s, dead) == s
  {
    if s != [] {
      WithoutNone(s[1..], dead);
    }
  }

  lemma {:induction false} WithoutOne(s: seq<Register>, k: nat)
    requires k < |s| && (forall i, j :: 0 <= i < j < |s| ==> s[i] != s[j])
    ensures Without(s, {s[k]}) == Removed(s, k)
  {
    if k == 0 {
      WithoutNone(s[1..], {s[0]});
    } else {
      WithoutOne(s[1..], k - 1);
    }
  }

  lemma {:induction false} WithoutBoth(s: seq<Register>, a: set<Register>, b: set<Register>)
    ensures Without(Without(s, a), b) == Without(s, a + b)
  {
    if s != [] {
      WithoutBoth(s[1..], a, b);
      if s[0] in a {
        assert Without(s, a) == Without(s[1..], a);
      } else {
        assert Without(s, a)[1..] == Without(s[1..], a);
      }
    }
  }

  lemma {:induction false} WithoutMembers(s: seq<Register>, dead: set<Register>, r: Register)
    ensures r in Without(s, dead) <==> r in s && r !in dead
  {
    if s != [] {
      WithoutMembers(s[1..], dead, r);
    }
  }

  /** Both operations leave any list of other entries alone. */
  method AddToList(head: Entry?, entry: Entry, ghost list: seq<Entry>, ghost otherHead: Entry?, ghost other: seq<Entry>)
    returns (newHead: Entry?)
    requires IsList(head, list) && Apart([entry], list)
    requires IsList(otherHead, other) && Apart([entry], other) && Apart(list, other)
    modifies entry`prev, entry`next, list`prev
    ensures IsList(newHead, [entry] + list) && IsList(otherHead, other)
  {
    entry.next := head;
    entry.prev := null;
    if head != null {
      head.prev := entry;
    }
    newHead := entry;
  }

  /** `k` is where the entry is. */
  method RemoveFromList(head: Entry?, entry: Entry, ghost list: seq<Entry>, ghost k: nat, ghost otherHead: Entry?, ghost other: seq<Entry>)
    returns (newHead: Entry?)
    requires IsList(head, list) && k < |list| && list[k] == entry
    requires IsList(otherHead, other) && Apart(list, other)
    modifies list`prev, list`next
    ensures IsList(newHead, Removed(list, k)) && IsList(otherHead, other)
  {
    newHead := head;
    if entry.prev != null {
      entry.prev.next := entry.next;
    } else {
      newHead := entry.next;
    }
    if entry.next != null {
      entry.next.prev := entry.prev;
    }
  }

  // ----- what a register must interfere with

  datatype Event =
    | Arrived(register: Register, initial: Mask)
    | Associated(register: Register, mask: Mask)
    | Died(register: Register, mask: Mask)

  /** The real registers that others were given, or still held when they died, since `r` arrived. */
  ghost function Required(log: seq<Event>, r: Register): Mask {
    if log == [] then {}
    else
      var before, last := log[..|log| - 1], log[|log| - 1];
      if last.Arrived? then (if last.register == r then last.initial else Required(before, r))
      else if last.register != r then Required(before, r) + last.mask
      else Required(before, r)
  }

  lemma RequiredNext(log: seq<Event>, e: Event, r: Register)
    ensures Required(log + [e], r) ==
      if e.Arrived? then (if e.register == r then e.initial else Required(log, r))
      else if e.register != r then Required(log, r) + e.mask
      else Required(log, r)
  {
    assert (log + [e])[..|log|] == log;
  }

  function CountSingles(registers: seq<Register>): nat {
    if registers == [] then 0 else CountSingles(registers[1..]) + if registers[0].IsPair() then 0 else 1
  }

  /** That is how many of the registers are not pairs. */
  lemma {:induction false} CountSinglesExactly(registers: seq<Register>)
    ensures CountSingles(registers) == |set i | 0 <= i < |registers| && (registers[i].low == null || registers[i].high == null)|
  {
    if registers != [] {
      var last := |registers| - 1;
      var singles := set i | 0 <= i < |registers| && (registers[i].low == null || registers[i].high == null);
      var before := set i | 0 <= i < last && (registers[..last][i].low == null || registers[..last][i].high == null);
      CountSinglesExactly(registers[..last]);
      CountSinglesLast(registers);
      assert singles == before + if registers[last].IsPair() then {} else {last};
    }
  }

  lemma {:induction false} CountSinglesLast(registers: seq<Register>)
    requires registers != []
    ensures var last := |registers| - 1;
      CountSingles(registers) == CountSingles(registers[..last]) + if registers[last].IsPair() then 0 else 1
  {
    if |registers| > 1 {
      CountSinglesLast(registers[1..]);
      assert registers[1..][..|registers| - 2] == registers[..|registers| - 1][1..];
    }
  }

  lemma {:induction false} CountWithout(registers: seq<Register>, k: nat)
    requires k < |registers|
    ensures CountSingles(Removed(registers, k)) == CountSingles(registers) - if registers[k].IsPair() then 0 else 1
  {
    if k > 0 {
      CountWithout(registers[1..], k - 1);
      assert Removed(registers, k) == [registers[0]] + Removed(registers[1..], k - 1);
    } else {
      assert Removed(registers, 0) == registers[1..];
    }
  }

  /** Entry `i` of the chain belongs to register `i`, which knows it. */
  ghost predicate Bound(chain: seq<Entry>, registers: seq<Register>)
    reads chain`register, registers`isLive, registers`entry
  {
    && |registers| == |chain|
    && forall i :: 0 <= i < |chain| ==>
         chain[i].register == registers[i] && registers[i].isLive && registers[i].entry == chain[i]
  }

  /** Each mask is exactly what its register must interfere with. */
  ghost predicate Exact(chain: seq<Entry>, registers: seq<Register>, log: seq<Event>)
    reads chain`interference
  {
    |registers| == |chain| && forall i :: 0 <= i < |chain| ==> chain[i].interference == Required(log, registers[i])
  }

  lemma ApartMeans(e: Entry, list: seq<Entry>)
    requires Apart([e], list)
    ensures e !in list
  {
    forall j | 0 <= j < |list| ensures list[j] != e {
      assert [e][0] != list[j];
    }
  }

  lemma ApartWith(e: Entry, a: seq<Entry>, b: seq<Entry>)
    requires Apart(a, b) && Apart([e], b)
    ensures Apart([e] + a, b)
  {
    forall i, j | 0 <= i < |[e] + a| && 0 <= j < |b| ensures ([e] + a)[i] != b[j] {
      assert [e][0] != b[j];
    }
  }

  /** A new arrival starts with the mask its entry has; nobody else's mask is affected. */
  lemma ExactWith(entry: Entry, reg: Register, chain: seq<Entry>, registers: seq<Register>, log: seq<Event>)
    requires Exact(chain, registers, log) && reg !in registers
    ensures Exact([entry] + chain, [reg] + registers, log + [Arrived(reg, entry.interference)])
  {
    hide Required;
    forall i | 0 <= i <= |chain|
      ensures ([entry] + chain)[i].interference == Required(log + [Arrived(reg, entry.interference)], ([reg] + registers)[i])
    {
      RequiredNext(log, Arrived(reg, entry.interference), ([reg] + registers)[i]);
    }
  }

  /** A new entry is the register's first. */
  method Bind(entry: Entry, reg: Register, ghost chain: seq<Entry>, ghost registers: seq<Register>, ghost log: seq<Event>)
    requires Bound(chain, registers) && Exact(chain, registers, log) && Apart([entry], chain) && reg !in registers
    modifies entry`register, entry`interference, entry`association, entry`nodeCount, reg`entry, reg`isLive
    ensures Bound([entry] + chain, [reg] + registers)
    ensures Exact([entry] + chain, [reg] + registers, log + [Arrived(reg, {})])
    ensures reg.isLive && reg.entry == entry && entry.association == {} && entry.nodeCount == 0
  {
    ApartMeans(entry, chain);
    entry.Initialize(reg);
    reg.entry := entry;
    reg.isLive := true;
    ExactWith(entry, reg, chain, registers, log);
  }

  /** The chain holds one entry for each live register and shares none with the pool; masks are exact. */
  ghost predicate Consistent(head: Entry?, chain: seq<Entry>, registers: seq<Register>, log: seq<Event>,
      pool: Entry?, spare: seq<Entry>)
    reads chain`prev, chain`next, chain`register, chain`interference, spare`prev, spare`next
    reads registers`isLive, registers`entry
  {
    && IsList(head, chain) && IsList(pool, spare) && Apart(chain, spare)
    && Bound(chain, registers) && Exact(chain, registers, log)
  }

  method TakeFirst(pool: Entry, ghost spare: seq<Entry>, ghost head: Entry?, ghost chain: seq<Entry>)
    returns (newPool: Entry?)
    requires IsList(pool, spare) && spare != [] && spare[0] == pool && IsList(head, chain) && Apart(chain, spare)
    modifies spare`prev, spare`next
    ensures IsList(newPool, spare[1..]) && IsList(head, chain) && Apart([pool], spare[1..])
  {
    Distinct(pool, spare, 0);
    assert Removed(spare, 0) == spare[1..];
    hide IsList, Apart;
    newPool := RemoveFromList(pool, pool, spare, 0, head, chain);
  }

  /** Take an entry from the pool, or make one. */
  method TakeEntry(pool: Entry?, ghost spare: seq<Entry>, ghost head: Entry?, ghost chain: seq<Entry>,
      ghost registers: seq<Register>, ghost log: seq<Event>)
    returns (entry: Entry, newPool: Entry?, ghost newSpare: seq<Entry>)
    requires Consistent(head, chain, registers, log, pool, spare)
    modifies spare`prev, spare`next
    ensures Consistent(head, chain, registers, log, newPool, newSpare)
    ensures Apart([entry], chain) && Apart([entry], newSpare)
    ensures fresh(entry) || (spare != [] && entry == spare[0])
    ensures if spare == [] then fresh(entry) && newSpare == [] else [entry] + newSpare == spare
  {
    hide IsList, Bound, Exact;
    HeadOf(pool, spare);
    if pool != null {
      assert Apart([spare[0]], chain) && Apart(chain, spare[1..]);
      hide Apart;
      entry := pool;
      newPool := TakeFirst(pool, spare, head, chain);
      newSpare := spare[1..];
    } else {
      entry := new Entry();
      newPool, newSpare := null, [];
    }
  }

  /** Give a register an entry at the front of the chain; the pool is not touched. */
  method Attach(head: Entry?, entry: Entry, reg: Register, ghost chain: seq<Entry>, ghost registers: seq<Register>,
      ghost log: seq<Event>, ghost pool: Entry?, ghost spare: seq<Entry>)
    returns (newHead: Entry?)
    requires Consistent(head, chain, registers, log, pool, spare) && reg !in registers
    requires Apart([entry], chain) && Apart([entry], spare)
    modifies entry, reg`entry, reg`isLive, chain`prev
    ensures Consistent(newHead, [entry] + chain, [reg] + registers, log + [Arrived(reg, {})], pool, spare)
    ensures reg.isLive && reg.entry == entry && entry.association == {} && entry.nodeCount == 0
  {
    hide IsList, Required, Bound, Exact, Apart;
    Bind(entry, reg, chain, registers, log);
    newHead := AddToList(head, entry, chain, pool, spare);
    ApartWith(entry, chain, spare);
  }

  /** Every register of the chain is live. */
  lemma LiveAreBound(head: Entry?, chain: seq<Entry>, registers: seq<Register>, log: seq<Event>,
      pool: Entry?, spare: seq<Entry>, reg: Register)
    requires Consistent(head, chain, registers, log, pool, spare) && !reg.isLive
    ensures reg !in registers
  {
  }

  ghost predicate Within(list: seq<Entry>, entries: set<Entry>) {
    forall i :: 0 <= i < |list| ==> list[i] in entries
  }

  /** Take an entry from the pool, or make one, and put it at the front of the chain for a register. */
  method Enter(reg: Register, head: Entry?, ghost chain: seq<Entry>, ghost registers: seq<Register>,
      ghost log: seq<Event>, pool: Entry?, ghost spare: seq<Entry>, ghost entries: set<Entry>)
    returns (entry: Entry, newHead: Entry?, newPool: Entry?, ghost newSpare: seq<Entry>)
    requires Consistent(head, chain, registers, log, pool, spare) && !reg.isLive
    requires Within(chain, entries) && Within(spare, entries)
    modifies entries, reg`isLive, reg`entry
    ensures Consistent(newHead, [entry] + chain, [reg] + registers, log + [Arrived(reg, {})], newPool, newSpare)
    ensures Within([entry] + chain, entries + {entry}) && Within(newSpare, entries + {entry})
    ensures if spare == [] then fresh(entry) && newSpare == [] else [entry] + newSpare == spare
    ensures fresh(entry) || entry in entries
    ensures reg.isLive && reg.entry == entry && entry.association == {} && entry.nodeCount == 0
    ensures forall e :: e in chain ==> e.association == old(e.association) && e.nodeCount == old(e.nodeCount)
  {
    LiveAreBound(head, chain, registers, log, pool, spare, reg);
    assert forall e :: e in chain || e in spare ==> e in entries;
    hide Consistent, Apart, Within;
    entry, newPool, newSpare := TakeEntry(pool, spare, head, chain, registers, log);
    ApartMeans(entry, chain);
    newHead := Attach(head, entry, reg, chain, registers, log, newPool, newSpare);
    WithinTaken(entry, chain, spare, newSpare, entries);
  }

  lemma WithinTaken(entry: Entry, chain: seq<Entry>, spare: seq<Entry>, rest: seq<Entry>, entries: set<Entry>)
    requires Within(chain, entries) && Within(spare, entries) && (rest == [] || [entry] + rest == spare)
    ensures Within([entry] + chain, entries + {entry}) && Within(rest, entries + {entry})
  {
    assert rest != [] ==> forall i :: 0 <= i < |rest| ==> rest[i] == spare[i + 1];
  }

  /** The entry of a register of the list, and its mask. */
  lemma InChain(head: Entry?, chain: seq<Entry>, registers: seq<Register>, log: seq<Event>,
      pool: Entry?, spare: seq<Entry>, reg: Register)
    requires Consistent(head, chain, registers, log, pool, spare) && reg in registers
    ensures reg.entry != null && reg.entry in chain && reg.isLive
    ensures reg.entry.register == reg && reg.entry.interference == Required(log, reg)
  {
    var i :| 0 <= i < |registers| && registers[i] == reg;
    assert chain[i] == reg.entry;
  }

  ghost function Components(pair: Register, low: bool, high: bool): set<Register>
    requires pair.IsPair()
  {
    (if low then {pair.low} else {}) + (if high then {pair.high} else {})
  }

  /** A component that no node holds any more. */
  predicate Released(reg: Register?)
    reads reg, if reg != null then {reg.entry} else {}
  {
    reg != null && reg.isLive && reg.entry != null && reg.entry.nodeCount == 0
  }

  ghost function Involved(reg: Register): set<Register> {
    if reg.IsPair() then {reg, reg.low, reg.high} else {reg}
  }

  /** The death of a register, if it dies. */
  ghost function Death(dies: bool, reg: Register, mask: Mask): seq<Event> {
    if dies then [Died(reg, mask)] else []
  }

  lemma {:induction false} RemovedMultiset<T>(s: seq<T>, k: nat)
    requires k < |s|
    ensures multiset(Removed(s, k)) + multiset{s[k]} == multiset(s)
  {
    assert s == s[..k] + ([s[k]] + s[k + 1..]);
  }

  /** Taking one entry out of the chain leaves it in neither list. */
  lemma LeftOut(chain: seq<Entry>, k: nat, spare: seq<Entry>)
    requires k < |chain| && Apart([chain[k]], Removed(chain, k)) && Apart([chain[k]], spare)
    ensures chain[k] !in multiset(Removed(chain, k)) + multiset(spare)
    ensures multiset(Removed(chain, k)) + multiset(spare) + multiset{chain[k]} == multiset(chain) + multiset(spare)
  {
    RemovedMultiset(chain, k);
    ApartMeans(chain[k], Removed(chain, k));
    ApartMeans(chain[k], spare);
  }

  /** No register is on the chain twice. */
  lemma EachOnce(head: Entry?, chain: seq<Entry>, registers: seq<Register>, log: seq<Event>,
      pool: Entry?, spare: seq<Entry>)
    requires Consistent(head, chain, registers, log, pool, spare)
    ensures |registers| == |chain| && forall i :: 0 <= i < |chain| ==> registers[i].entry == chain[i]
    ensures forall i, j :: 0 <= i < j < |registers| ==> registers[i] != registers[j]
  {
    forall i, j | 0 <= i < j < |registers| ensures registers[i] != registers[j] {
      assert chain[i] != chain[j];
    }
  }

  /** Leaving out one position leaves out one register. */
  lemma OneLess(head: Entry?, chain: seq<Entry>, registers: seq<Register>, log: seq<Event>,
      pool: Entry?, spare: seq<Entry>, k: nat)
    requires Consistent(head, chain, registers, log, pool, spare) && k < |registers|
    ensures |registers| == |chain| && registers[k].entry == chain[k]
    ensures Removed(registers, k) == Without(registers, {registers[k]}) && registers[k] !in Removed(registers, k)
  {
    EachOnce(head, chain, registers, log, pool, spare);
    WithoutOne(registers, k);
    WithoutMembers(registers, {registers[k]}, registers[k]);
  }

  lemma WithinRest(chain: seq<Entry>, k: nat, entries: set<Entry>)
    requires Within(chain, entries) && k < |chain|
    ensures Within(Removed(chain, k), entries)
  {
  }

  /** Unlink the entry of one register from the chain. */
  method Detach(head: Entry?, entry: Entry, ghost k: nat, ghost chain: seq<Entry>, ghost registers: seq<Register>,
      ghost log: seq<Event>, ghost pool: Entry?, ghost spare: seq<Entry>)
    returns (newHead: Entry?)
    requires Consistent(head, chain, registers, log, pool, spare) && k < |chain| && chain[k] == entry
    modifies chain`prev, chain`next
    ensures Consistent(newHead, Removed(chain, k), Removed(registers, k), log, pool, spare)
    ensures Apart([entry], Removed(chain, k)) && Apart([entry], spare)
  {
    hide IsList, Required;
    Distinct(head, chain, k);
    newHead := RemoveFromList(head, entry, chain, k, pool, spare);
  }

  /** Put an entry on the pool. */
  method Recycle(pool: Entry?, entry: Entry, ghost spare: seq<Entry>, ghost head: Entry?, ghost chain: seq<Entry>,
      ghost registers: seq<Register>, ghost log: seq<Event>)
    returns (newPool: Entry?)
    requires Consistent(head, chain, registers, log, pool, spare)
    requires Apart([entry], chain) && Apart([entry], spare)
    modifies entry`prev, entry`next, spare`prev
    ensures Consistent(head, chain, registers, log, newPool, [entry] + spare)
  {
    hide IsList, Bound, Exact;
    newPool := AddToList(pool, entry, spare, head, chain);
  }

  /** Every entry of the chain but one interferes with the given real registers. */
  method AddInterference(head: Entry?, except: Entry?, mask: Mask, ghost chain: seq<Entry>, ghost registers: seq<Register>,
      ghost log: seq<Event>, ghost e: Event)
    requires IsList(head, chain) && Exact(chain, registers, log) && !e.Arrived? && e.mask == mask
    requires forall i :: 0 <= i < |chain| ==> (chain[i] == except <==> registers[i] == e.register)
    modifies chain`interference
    ensures Exact(chain, registers, log + [e])
  {
    hide Required;
    var p := head;
    ghost var i := 0;
    while p != null
      invariant i <= |chain| && p == if i < |chain| then chain[i] else null
      invariant forall k :: 0 <= k < |chain| ==>
        chain[k].interference == old(chain[k].interference) + if k < i && chain[k] != except then mask else {}
      decreases |chain| - i
    {
      if p != except {
        p.interference := p.interference + mask;
      }
      p := p.next;
      i := i + 1;
    }
    forall k | 0 <= k < |chain| ensures chain[k].interference == Required(log + [e], registers[k]) {
      RequiredNext(log, e, registers[k]);
    }
  }

  /** The whole state stays consistent while the event is recorded. */
  method Interfere(head: Entry?, except: Entry?, mask: Mask, ghost chain: seq<Entry>, ghost registers: seq<Register>,
      ghost log: seq<Event>, ghost e: Event, ghost pool: Entry?, ghost spare: seq<Entry>)
    requires Consistent(head, chain, registers, log, pool, spare) && !e.Arrived? && e.mask == mask
    requires if except == null then e.register !in registers else e.register.isLive && e.register in registers && e.register.entry == except
    modifies chain`interference
    ensures Consistent(head, chain, registers, log + [e], pool, spare)
  {
    hide IsList, Exact, Apart, Required;
    AddInterference(head, except, mask, chain, registers, log, e);
  }

  /** Give the register of one entry a real register. */
  method Associate(head: Entry?, entry: Entry, mask: Mask, ghost chain: seq<Entry>, ghost registers: seq<Register>,
      ghost log: seq<Event>, ghost e: Event, ghost pool: Entry?, ghost spare: seq<Entry>)
    requires Consistent(head, chain, registers, log, pool, spare) && !e.Arrived? && e.mask == mask
    requires e.register.isLive && e.register in registers && e.register.entry == entry
    modifies chain`interference, entry`association
    ensures Consistent(head, chain, registers, log + [e], pool, spare) && entry.association == mask
  {
    hide Consistent;
    entry.association := mask;
    Interfere(head, entry, mask, chain, registers, log, e, pool, spare);
  }

  /** An event that gives nobody a real register leaves every mask exact. */
  lemma ExactQuiet(chain: seq<Entry>, registers: seq<Register>, log: seq<Event>, e: Event)
    requires Exact(chain, registers, log) && !e.Arrived? && e.mask == {}
    ensures Exact(chain, registers, log + [e])
  {
    hide Required;
    forall k | 0 <= k < |chain| ensures chain[k].interference == Required(log + [e], registers[k]) {
      RequiredNext(log, e, registers[k]);
    }
  }

  /** Link the entry of a live register in front of another list's chain. */
  method PushFront(head: Entry?, entry: Entry, reg: Register, ghost chain: seq<Entry>, ghost registers: seq<Register>,
      ghost log: seq<Event>, ghost pool: Entry?, ghost spare: seq<Entry>)
    returns (newHead: Entry?)
    requires Consistent(head, chain, registers, log, pool, spare) && reg !in registers
    requires reg.isLive && reg.entry == entry && entry.register == reg
    requires Apart([entry], chain) && Apart([entry], spare)
    modifies entry`prev, entry`next, chain`prev
    ensures Consistent(newHead, [entry] + chain, [reg] + registers, log + [Arrived(reg, entry.interference)], pool, spare)
  {
    hide IsList, Required, Exact, Apart;
    newHead := AddToList(head, entry, chain, pool, spare);
    ApartWith(entry, chain, spare);
    ExactWith(entry, reg, chain, registers, log);
  }

  class LiveRegisters {
    const keepsByteBit: bool  // x86 keeps the byte-register bit of an association
    var head: Entry?
    var pool: Entry?
    var numLive: int
    ghost var chain: seq<Entry>
    ghost var spare: seq<Entry>
    ghost var registers: seq<Register>
    ghost var log: seq<Event>
    ghost var entries: set<Entry>

    ghost predicate Linked()
      reads `head, `pool, `chain, `spare, `registers, `log, `entries
      reads chain`prev, chain`next, chain`register, chain`interference, spare`prev, spare`next
      reads registers`isLive, registers`entry
    {
      Consistent(head, chain, registers, log, pool, spare) && Within(chain, entries) && Within(spare, entries)
    }

    constructor (keepsByteBit: bool)
      ensures Linked() && numLive == CountSingles(registers) && chain == [] && spare == [] && log == [] && this.keepsByteBit == keepsByteBit
    {
      this.keepsByteBit := keepsByteBit;
      head, pool, numLive := null, null, 0;
      chain, spare, registers, log, entries := [], [], [], [], {};
    }

    /** Store new list heads, with the ghost state that goes with them. */
    method Install(newHead: Entry?, ghost newChain: seq<Entry>, ghost newRegisters: seq<Register>,
        ghost newLog: seq<Event>, newPool: Entry?, ghost newSpare: seq<Entry>, ghost newEntries: set<Entry>)
      requires Consistent(newHead, newChain, newRegisters, newLog, newPool, newSpare)
      requires Within(newChain, newEntries) && Within(newSpare, newEntries)
      modifies `head, `pool, `chain, `spare, `registers, `log, `entries
      ensures Linked() && head == newHead && pool == newPool
      ensures chain == newChain && spare == newSpare && registers == newRegisters && log == newLog
      ensures entries == newEntries
    {
      hide Consistent, Within;
      head, pool := newHead, newPool;
      chain, spare, registers, log, entries := newChain, newSpare, newRegisters, newLog, newEntries;
    }

    /** A register becomes live, with an empty mask and no association. */
    method AddRegister(reg: Register) returns (entry: Entry)
      requires Linked() && !reg.isLive
      modifies this, entries, reg`isLive, reg`entry
      ensures Linked() && registers == [reg] + old(registers) && chain == [entry] + old(chain)
      ensures if old(spare) == [] then fresh(entry) && spare == [] else [entry] + spare == old(spare)
      ensures reg.isLive && reg.entry == entry && entry.association == {} && entry.nodeCount == 0
      ensures entries == old(entries) + {entry} && (fresh(entry) || entry in old(entries))
      ensures numLive == old(numLive) + 1 && log == old(log) + [Arrived(reg, {})]
      ensures CountSingles(registers) == old(CountSingles(registers)) + if reg.IsPair() then 0 else 1
      ensures forall e :: e in old(chain) ==> e.association == old(e.association) && e.nodeCount == old(e.nodeCount)
    {
      hide Consistent, Within;
      var newHead, newPool;
      ghost var newSpare;
      entry, newHead, newPool, newSpare := Enter(reg, head, chain, registers, log, pool, spare, entries);
      assert ([reg] + registers)[1..] == registers;
      Install(newHead, [entry] + chain, [reg] + registers, log + [Arrived(reg, {})], newPool, newSpare, entries + {entry});
      numLive := numLive + 1;
    }

    /** Take a live register off the chain. */
    method Drop(reg: Register) returns (ghost k: nat)
      requires Linked() && reg.isLive && reg in registers
      modifies `head, `pool, `numLive, `chain, `spare, `registers, `log, `entries, entries`prev, entries`next
      ensures pool == old(pool) && spare == old(spare) && log == old(log) && entries == old(entries)
      ensures Linked() && registers == Without(old(registers), {reg})
      ensures numLive == old(numLive) - 1
      ensures k < |old(registers)| == |old(chain)| && old(registers)[k] == reg && old(chain)[k] == reg.entry
      ensures chain == Removed(old(chain), k) && registers == Removed(old(registers), k)
      ensures Apart([reg.entry], chain) && Apart([reg.entry], spare) && reg !in registers
    {
      k :| 0 <= k < |registers| && registers[k] == reg;
      OneLess(head, chain, registers, log, pool, spare, k);
      hide Linked, Consistent, Within, Apart, Without, Removed;
      Unchain(reg.entry, k);
      numLive := numLive - 1;
    }

    /** Detach the entry at a position of the chain. */
    method Unchain(entry: Entry, ghost k: nat)
      requires Linked() && k < |chain| == |registers| && chain[k] == entry
      modifies `head, `pool, `chain, `spare, `registers, `log, `entries, entries`prev, entries`next
      ensures Linked() && chain == Removed(old(chain), k) && registers == Removed(old(registers), k)
      ensures pool == old(pool) && spare == old(spare) && log == old(log) && entries == old(entries)
      ensures Apart([entry], chain) && Apart([entry], spare)
    {
      WithinRest(chain, k, entries);
      hide Consistent, Apart, Removed;
      var newHead := Detach(head, entry, k, chain, registers, log, pool, spare);
      Install(newHead, Removed(chain, k), Removed(registers, k), log, pool, spare, entries);
    }

    /** As `Drop`, with what becomes of the entry and of the count. */
    method Unlink(reg: Register) returns (liveReg: Entry)
      requires Linked() && reg.isLive && reg in registers
      modifies `head, `pool, `numLive, `chain, `spare, `registers, `log, `entries, entries`prev, entries`next
      ensures Linked() && registers == Without(old(registers), {reg}) && log == old(log) && entries == old(entries)
      ensures liveReg == reg.entry && liveReg in entries && liveReg.interference == Required(log, reg)
      ensures pool == old(pool) && spare == old(spare)
      ensures liveReg !in multiset(chain) + multiset(spare)
      ensures multiset(chain) + multiset(spare) + multiset{liveReg} == old(multiset(chain) + multiset(spare))
      ensures numLive == old(numLive) - 1
      ensures numLive - CountSingles(registers) == old(numLive - CountSingles(registers)) - if reg.IsPair() then 1 else 0
    {
      hide Linked, Without, CountSingles, Required;
      EntryOf(reg);
      liveReg := reg.entry;
      ghost var k := Drop(reg);
      LeftOut(old(chain), k, spare);
      CountWithout(old(registers), k);
    }

    /** A pair brings its components along; only the components count. */
    method AddRegisterPair(reg: Register) returns (entry: Entry)
      requires Linked() && !reg.isLive && reg.IsPair() && !reg.low.IsPair() && !reg.high.IsPair()
      modifies this, entries, reg`isLive, reg`entry
      modifies reg.low`isLive, reg.low`entry, reg.high`isLive, reg.high`entry
      ensures Linked()
      ensures var lowArrives, highArrives := !old(reg.low.isLive), !old(reg.high.isLive) && reg.high != reg.low;
        && registers ==
          (if highArrives then [reg.high] else []) + (if lowArrives then [reg.low] else []) + [reg] + old(registers)
        && log == old(log) + [Arrived(reg, {})] + (if lowArrives then [Arrived(reg.low, {})] else [])
          + (if highArrives then [Arrived(reg.high, {})] else [])
        && numLive == old(numLive) + (if lowArrives then 1 else 0) + (if highArrives then 1 else 0)
      ensures reg.isLive && reg.low.isLive && reg.high.isLive && reg.entry == entry
      ensures numLive - CountSingles(registers) == old(numLive - CountSingles(registers))
      ensures old(entries) <= entries && fresh(entries - old(entries))
      ensures forall e :: e in old(chain) ==> e.association == old(e.association) && e.nodeCount == old(e.nodeCount)
    {
      hide Consistent, Apart, Within, Linked, CountSingles;
      entry := AddRegister(reg);
      var low: Register, high: Register := reg.low, reg.high;
      if !low.isLive {
        var _ := AddRegister(low);
      }
      if !high.isLive {
        var _ := AddRegister(high);
      }
      numLive := numLive - 1;
    }

    /** A real register is given to `reg`, so every other live register interferes with it. */
    method SetAssociation(reg: Register, mask: Mask)
      requires Linked() && (reg.isLive ==> reg in registers)
      modifies `log, chain`interference, chain`association
      ensures Linked()
      ensures !reg.isLive ==> log == old(log) && forall e :: e in chain ==> e.association == old(e.association)
      ensures reg.isLive ==>
        && reg.entry in chain
        && reg.entry.association == mask + (if keepsByteBit then old(reg.entry.association) * {31} else {})
        && log == old(log) + [Associated(reg, reg.entry.association)]
        && forall e :: e in chain && e != reg.entry ==> e.association == old(e.association)
    {
      if !reg.isLive {
        return;
      }
      InChain(head, chain, registers, log, pool, spare, reg);
      hide Consistent, Within;
      var liveReg: Entry := reg.entry;
      var association := mask + (if keepsByteBit then liveReg.association * {31} else {});
      Associate(head, liveReg, association, chain, registers, log, Associated(reg, association), pool, spare);
      log := log + [Associated(reg, association)];
    }

    /** A register that is only leaving this list: it stays live and keeps its entry. */
    method RemoveRegisterFromLiveList(reg: Register)
      requires Linked() && (reg.isLive ==> reg in registers && !reg.IsPair())
      modifies `head, `pool, `numLive, `chain, `spare, `registers, `log, `entries, entries`prev, entries`next
      ensures Linked() && pool == old(pool) && spare == old(spare) && log == old(log) && entries == old(entries)
      ensures registers == if reg.isLive then Without(old(registers), {reg}) else old(registers)
      ensures numLive - CountSingles(registers) == old(numLive - CountSingles(registers))
      ensures reg.isLive ==>
        && reg.entry in entries && reg.entry !in multiset(chain) + multiset(spare)
        && reg.entry.register == reg && reg.entry.interference == Required(log, reg)
    {
      hide Linked, Without, Required, CountSingles;
      if reg.isLive {
        EntryOf(reg);
        var _ := Unlink(reg);
      }
    }

    /** Put the entry of a register that came from another list in front. */
    method Adopt(reg: Register, entry: Entry)
      requires Linked() && reg.isLive && reg.entry == entry && entry.register == reg && entry !in entries
      modifies `head, `pool, `numLive, `chain, `spare, `registers, `log, `entries
      modifies entry`prev, entry`next, entries`prev
      ensures Linked() && spare == old(spare) && entries == old(entries) + {entry}
      ensures registers == [reg] + old(registers) && log == old(log) + [Arrived(reg, entry.interference)]
      ensures numLive - CountSingles(registers) == old(numLive - CountSingles(registers)) + if reg.IsPair() then 1 else 0
    {
      NotHere(reg, entry);
      hide Consistent;
      var newHead := PushFront(head, entry, reg, chain, registers, log, pool, spare);
      assert ([reg] + registers)[1..] == registers;
      Install(newHead, [entry] + chain, [reg] + registers, log + [Arrived(reg, entry.interference)], pool, spare, entries + {entry});
      numLive := numLive + 1;
    }

    /** Forget an entry that is in neither list. */
    ghost method Disown(entry: Entry)
      requires Linked() && entry !in multiset(chain) + multiset(spare)
      modifies `entries
      ensures Linked() && entries == old(entries) - {entry}
    {
      assert entry !in chain && entry !in spare;
      hide Consistent;
      entries := entries - {entry};
    }

    lemma Inside()
      requires Linked()
      ensures Within(chain, entries) && Within(spare, entries)
    {
    }

    lemma NotHere(reg: Register, entry: Entry)
      requires Linked() && reg.entry == entry && entry !in entries
      ensures reg !in registers && Apart([entry], chain) && Apart([entry], spare)
    {
      if reg in registers {
        EntryOf(reg);
        assert false;
      }
    }

    /** Record the death of a single register: the mask it ends with, and the real register it still held. */
    method Retire(reg: Register, liveReg: Entry)
      requires Linked() && reg !in registers && liveReg !in chain && liveReg.interference == Required(log, reg)
      modifies `log, entries`interference, reg`interference
      ensures Linked() && log == old(log) + [Died(reg, liveReg.association)]
      ensures reg.interference == Required(old(log), reg)
    {
      hide IsList, Required, Bound, Apart;
      reg.interference := liveReg.interference;
      ghost var e := Died(reg, liveReg.association);
      if liveReg.association != {} {
        Interfere(head, null, liveReg.association, chain, registers, log, e, pool, spare);
      } else {
        ExactQuiet(chain, registers, log, e);
      }
      log := log + [e];
    }

    /** Its entry goes back to the pool. */
    method Finish(reg: Register, liveReg: Entry)
      requires Linked() && reg !in registers && liveReg in entries
      requires liveReg !in multiset(chain) + multiset(spare)
      modifies `head, `pool, `chain, `spare, `registers, `log, `entries, entries`prev, entries`next, reg`isLive
      ensures Linked() && spare == [liveReg] + old(spare) && !reg.isLive
      ensures head == old(head) && chain == old(chain) && registers == old(registers) && log == old(log) && entries == old(entries)
    {
      assert liveReg !in chain && liveReg !in spare;
      hide Consistent;
      reg.isLive := false;
      var newPool := Recycle(pool, liveReg, spare, head, chain, registers, log);
      Install(head, chain, registers, log, newPool, [liveReg] + spare, entries);
    }

    /** Kill a component of a dying pair, unless a node still holds it. */
    method KillIfReleased(c: Register)
      requires Linked() && !c.IsPair() && (c.isLive ==> c in registers)
      modifies `head, `pool, `numLive, `chain, `spare, `registers, `log, `entries
      modifies entries`prev, entries`next, entries`interference, c`isLive, c`interference
      ensures Linked() && entries == old(entries)
      ensures registers == Without(old(registers), if old(Released(c)) then {c} else {})
      ensures old(Released(c)) ==>
        !c.isLive && log == old(log) + [Died(c, old(c.entry.association))] && c.interference == Required(old(log), c)
      ensures !old(Released(c)) ==> log == old(log) && c.isLive == old(c.isLive) && c.interference == old(c.interference)
      ensures numLive - CountSingles(registers) == old(numLive - CountSingles(registers))
      ensures numLive == old(numLive) - if old(Released(c)) then 1 else 0
      ensures multiset(chain) + multiset(spare) == old(multiset(chain) + multiset(spare))
      decreases false, 4
    {
      hide Linked, Without, Required, CountSingles;
      WithoutNone(registers, {});
      if c.isLive {
        EntryOf(c);
        if c.entry.nodeCount == 0 {
          RegisterIsDead(c);
        }
      }
    }

    /** First the low and then the high component of a pair whose own entry is off the chain. */
    method KillComponents(pair: Register)
      requires Linked() && pair.IsPair() && pair !in registers
      requires !pair.low.IsPair() && (pair.low.isLive ==> pair.low in registers)
      requires !pair.high.IsPair() && (pair.high.isLive ==> pair.high in registers)
      modifies `head, `pool, `numLive, `chain, `spare, `registers, `log, `entries
      modifies entries`prev, entries`next, entries`interference, {pair.low, pair.high}`isLive, {pair.low, pair.high}`interference
      ensures Linked() && entries == old(entries)
      ensures registers == Without(old(registers), Components(pair, old(Released(pair.low)), old(Released(pair.high))))
      ensures var lowDies, highDies := old(Released(pair.low)), old(Released(pair.high)) && pair.high != pair.low;
        && log == old(log) + Death(lowDies, pair.low, if lowDies then old(pair.low.entry.association) else {})
                           + Death(highDies, pair.high, if highDies then old(pair.high.entry.association) else {})
        && (lowDies ==> !pair.low.isLive && pair.low.interference == Required(old(log), pair.low))
        && (highDies ==> !pair.high.isLive && pair.high.interference == Required(log[..|log| - 1], pair.high))
        && numLive == old(numLive) - (if lowDies then 1 else 0) - (if highDies then 1 else 0)
      ensures !old(Released(pair.low)) ==> pair.low.isLive == old(pair.low.isLive)
      ensures !old(Released(pair.high)) ==> pair.high.isLive == old(pair.high.isLive)
      ensures numLive - CountSingles(registers) == old(numLive - CountSingles(registers))
      ensures multiset(chain) + multiset(spare) == old(multiset(chain) + multiset(spare))
      decreases true, 0
    {
      hide Linked, Without, Required, CountSingles;
      ghost var before, lowReleased, highReleased := registers, Released(pair.low), Released(pair.high);
      var low: Register, high: Register := pair.low, pair.high;
      KillIfReleased(low);
      WithoutMembers(before, if lowReleased then {low} else {}, high);
      ghost var between := log;
      KillIfReleased(high);
      assert highReleased && high != low ==> log[..|log| - 1] == between;
      WithoutBoth(before, if lowReleased then {low} else {}, if highReleased && !(lowReleased && high == low) then {high} else {});
      assert Components(pair, lowReleased, highReleased) ==
        (if lowReleased then {low} else {}) + if highReleased && !(lowReleased && high == low) then {high} else {};
    }

    /** What is done once the entry of a dying single register is off the chain. */
    method BurySingle(reg: Register, liveReg: Entry)
      requires Linked() && !reg.IsPair() && reg !in registers && reg.entry == liveReg && liveReg in entries
      requires liveReg !in multiset(chain) + multiset(spare) && liveReg.interference == Required(log, reg)
      modifies `head, `pool, `chain, `spare, `registers, `log, `entries
      modifies entries`prev, entries`next, entries`interference, reg`isLive, reg`interference
      ensures Linked() && entries == old(entries) && registers == old(registers) && !reg.isLive
      ensures log == old(log) + [Died(reg, old(liveReg.association))] && reg.interference == Required(old(log), reg)
      ensures multiset(chain) + multiset(spare) == old(multiset(chain) + multiset(spare)) + multiset{liveReg}
    {
      assert liveReg !in chain;
      hide Linked, Required;
      Retire(reg, liveReg);
      Finish(reg, liveReg);
    }

    /** The same for a pair, whose components may die as well. */
    method BuryPair(reg: Register, liveReg: Entry)
      requires Linked() && reg.IsPair() && reg !in registers && reg.entry == liveReg && liveReg in entries
      requires liveReg !in multiset(chain) + multiset(spare) && reg != reg.low && reg != reg.high
      requires !reg.low.IsPair() && (reg.low.isLive ==> reg.low in registers)
      requires !reg.high.IsPair() && (reg.high.isLive ==> reg.high in registers)
      modifies `head, `pool, `numLive, `chain, `spare, `registers, `log, `entries
      modifies entries`prev, entries`next, entries`interference, {reg, reg.low, reg.high}`isLive
      modifies {reg.low, reg.high}`interference
      ensures Linked() && entries == old(entries) && !reg.isLive
      ensures registers == Without(old(registers), Components(reg, old(Released(reg.low)), old(Released(reg.high))))
      ensures var lowDies, highDies := old(Released(reg.low)), old(Released(reg.high)) && reg.high != reg.low;
        && log == old(log) + Death(lowDies, reg.low, if lowDies then old(reg.low.entry.association) else {})
                           + Death(highDies, reg.high, if highDies then old(reg.high.entry.association) else {})
        && (lowDies ==> !reg.low.isLive && reg.low.interference == Required(old(log), reg.low))
        && (highDies ==> !reg.high.isLive && reg.high.interference == Required(log[..|log| - 1], reg.high))
        && numLive == old(numLive) + 1 - (if lowDies then 1 else 0) - (if highDies then 1 else 0)
      ensures !old(Released(reg.low)) ==> reg.low.isLive == old(reg.low.isLive)
      ensures !old(Released(reg.high)) ==> reg.high.isLive == old(reg.high.isLive)
      ensures numLive - CountSingles(registers) == old(numLive - CountSingles(registers)) + 1
      ensures multiset(chain) + multiset(spare) == old(multiset(chain) + multiset(spare)) + multiset{liveReg}
      decreases true, 1
    {
      hide Linked, Without, Required, CountSingles, Released;
      WithoutMembers(registers, Components(reg, Released(reg.low), Released(reg.high)), reg);
      KillComponents(reg);
      numLive := numLive + 1;
      Finish(reg, liveReg);
    }

    /** Kill a register; a pair takes with it the components that no node holds. */
    method RegisterIsDead(reg: Register)
      requires Linked() && (reg.isLive ==> reg in registers)
      requires reg.IsPair() ==>
        && !reg.low.IsPair() && (reg.low.isLive ==> reg.low in registers)
        && !reg.high.IsPair() && (reg.high.isLive ==> reg.high in registers)
      modifies `head, `pool, `numLive, `chain, `spare, `registers, `log, `entries
      modifies entries`prev, entries`next, entries`interference, Involved(reg)`isLive, Involved(reg)`interference
      ensures Linked() && entries == old(entries)
      ensures !old(reg.isLive) ==> registers == old(registers) && log == old(log) && numLive == old(numLive)
      ensures old(reg.isLive) ==> !reg.isLive && reg !in registers && reg.entry != null
      ensures old(reg.isLive) && !reg.IsPair() ==>
        && registers == Without(old(registers), {reg}) && numLive == old(numLive) - 1
        && log == old(log) + [Died(reg, old(reg.entry.association))] && reg.interference == Required(old(log), reg)
      ensures old(reg.isLive) && reg.IsPair() ==>
        var lowDies := old(reg.low.isLive && reg.low.entry != null && reg.low.entry.nodeCount == 0);
        var highDies := old(reg.high.isLive && reg.high.entry != null && reg.high.entry.nodeCount == 0);
        && registers == Without(old(registers), {reg} + (if lowDies then {reg.low} else {}) + if highDies then {reg.high} else {})
        && (old(reg.low.isLive) ==> old(reg.low.entry) != null) && (old(reg.high.isLive) ==> old(reg.high.entry) != null)
        && (if lowDies then !reg.low.isLive && reg.low !in registers else reg.low.isLive == old(reg.low.isLive))
        && (if highDies then !reg.high.isLive && reg.high !in registers else reg.high.isLive == old(reg.high.isLive))
        && (old(reg.low.isLive) && !lowDies ==> reg.low in registers)
        && (old(reg.high.isLive) && !highDies ==> reg.high in registers)
        && log == old(log) + (if lowDies then [Died(reg.low, old(reg.low.entry.association))] else [])
          + (if highDies && reg.high != reg.low then [Died(reg.high, old(reg.high.entry.association))] else [])
        && (lowDies ==> reg.low.interference == Required(old(log), reg.low))
        && (highDies && reg.high != reg.low ==> reg.high.interference == Required(log[..|log| - 1], reg.high))
        && numLive == old(numLive) - (if lowDies then 1 else 0) - (if highDies && reg.high != reg.low then 1 else 0)
      ensures numLive - CountSingles(registers) == old(numLive - CountSingles(registers))
      ensures multiset(chain) + multiset(spare) == old(multiset(chain) + multiset(spare))
      decreases reg.IsPair(), 3
    {
      hide Linked, Without, Required, CountSingles, Apart;
      if !reg.isLive {
        return;
      }
      WithoutMembers(registers, {reg}, reg);
      if reg.IsPair() {
        PairIsDead(reg);
      } else {
        var liveReg := Unlink(reg);
        BurySingle(reg, liveReg);
      }
    }

    method PairIsDead(reg: Register)
      requires Linked() && reg.isLive && reg in registers && reg.IsPair()
      requires !reg.low.IsPair() && (reg.low.isLive ==> reg.low in registers)
      requires !reg.high.IsPair() && (reg.high.isLive ==> reg.high in registers)
      modifies `head, `pool, `numLive, `chain, `spare, `registers, `log, `entries
      modifies entries`prev, entries`next, entries`interference, {reg, reg.low, reg.high}`isLive
      modifies {reg.low, reg.high}`interference
      ensures Linked() && entries == old(entries) && !reg.isLive && reg !in registers && reg.entry != null
      ensures (old(reg.low.isLive) ==> old(reg.low.entry) != null) && (old(reg.high.isLive) ==> old(reg.high.entry) != null)
      ensures var lowDies := old(reg.low.isLive && reg.low.entry != null && reg.low.entry.nodeCount == 0);
        var highDies := old(reg.high.isLive && reg.high.entry != null && reg.high.entry.nodeCount == 0);
        && registers == Without(old(registers), {reg} + (if lowDies then {reg.low} else {}) + if highDies then {reg.high} else {})
        && (if lowDies then !reg.low.isLive && reg.low !in registers else reg.low.isLive == old(reg.low.isLive))
        && (if highDies then !reg.high.isLive && reg.high !in registers else reg.high.isLive == old(reg.high.isLive))
        && (old(reg.low.isLive) && !lowDies ==> reg.low in registers)
        && (old(reg.high.isLive) && !highDies ==> reg.high in registers)
        && log == old(log) + Death(lowDies, reg.low, if lowDies then old(reg.low.entry.association) else {})
          + Death(highDies && reg.high != reg.low, reg.high, if highDies then old(reg.high.entry.association) else {})
        && (lowDies ==> reg.low.interference == Required(old(log), reg.low))
        && (highDies && reg.high != reg.low ==> reg.high.interference == Required(log[..|log| - 1], reg.high))
        && numLive == old(numLive) - (if lowDies then 1 else 0) - (if highDies && reg.high != reg.low then 1 else 0)
      ensures numLive - CountSingles(registers) == old(numLive - CountSingles(registers))
      ensures multiset(chain) + multiset(spare) == old(multiset(chain) + multiset(spare))
      decreases true, 2
    {
      hide Linked, Without, Required, CountSingles, Apart;
      ghost var before := registers;
      if reg.low.isLive {
        EntryOf(reg.low);
      }
      if reg.high.isLive {
        EntryOf(reg.high);
      }
      WithoutMembers(before, {reg}, reg);
      WithoutMembers(before, {reg}, reg.low);
      WithoutMembers(before, {reg}, reg.high);
      var liveReg := Unlink(reg);
      assert Released(reg.low) == old(Released(reg.low)) && Released(reg.high) == old(Released(reg.high));
      ghost var dying := Components(reg, Released(reg.low), Released(reg.high));
      ghost var lowMask := if Released(reg.low) then reg.low.entry.association else {};
      ghost var highMask := if Released(reg.high) then reg.high.entry.association else {};
      assert lowMask == if old(Released(reg.low)) then old(reg.low.entry.association) else {};
      assert highMask == if old(Released(reg.high)) then old(reg.high.entry.association) else {};
      BuryPair(reg, liveReg);
      WithoutBoth(before, {reg}, dying);
      WithoutMembers(before, {reg} + dying, reg);
      WithoutMembers(before, {reg} + dying, reg.low);
      WithoutMembers(before, {reg} + dying, reg.high);
      assert {reg} + dying == {reg} + (if old(Released(reg.low)) then {reg.low} else {}) + if old(Released(reg.high)) then {reg.high} else {};
    }

    lemma EntryOf(reg: Register)
      requires Linked() && reg in registers
      ensures reg.isLive && reg.entry != null && reg.entry in chain && reg.entry in entries
      ensures reg.entry.register == reg && reg.entry.interference == Required(log, reg)
    {
      InChain(head, chain, registers, log, pool, spare, reg);
    }
  }

  /** Hand a live register over to another list: its entry and the mask collected so far go with it. */
  method MoveRegToList(from: LiveRegisters, to: LiveRegisters, reg: Register)
    requires from != to && from.Linked() && to.Linked() && from.entries !! to.entries
    requires reg.isLive && reg in from.registers && !reg.IsPair()
    modifies from, to, from.entries`prev, from.entries`next, to.entries`prev, to.entries`next
    ensures from.Linked() && to.Linked() && from.entries !! to.entries
    ensures from.entries + to.entries == old(from.entries + to.entries)
    ensures from.registers == Without(old(from.registers), {reg}) && to.registers == [reg] + old(to.registers)
    ensures from.log == old(from.log) && to.log == old(to.log) + [Arrived(reg, Required(old(from.log), reg))]
    ensures from.spare == old(from.spare) && to.spare == old(to.spare)
    ensures from.numLive - CountSingles(from.registers) == old(from.numLive - CountSingles(from.registers))
    ensures to.numLive - CountSingles(to.registers) == old(to.numLive - CountSingles(to.registers))
  {
    hide LiveRegisters.Linked, Without, Required, CountSingles;
    to.Inside();
    from.RemoveRegisterFromLiveList(reg);
    from.Inside();
    var entry: Entry := reg.entry;
    from.Disown(entry);
    from.Inside();
    to.Adopt(reg, entry);
  }

  // ----- what an exact mask means

  /** The register arrived at step `k` and has not arrived again. */
  ghost predicate ArrivedAt(log: seq<Event>, r: Register, k: nat) {
    && k < |log| && log[k].Arrived? && log[k].register == r
    && forall j :: k < j < |log| && log[j].Arrived? ==> log[j].register != r
  }

  /** A real register is required exactly when the register came with it or another register took it since. */
  lemma {:induction false} RequiredExactly(log: seq<Event>, r: Register, k: nat, bit: nat)
    requires ArrivedAt(log, r, k)
    ensures bit in Required(log, r) <==>
      bit in log[k].initial ||
      exists j :: k < j < |log| && !log[j].Arrived? && log[j].register != r && bit in log[j].mask
  {
    var before, last := log[..|log| - 1], log[|log| - 1];
    if k < |log| - 1 {
      assert ArrivedAt(before, r, k);
      RequiredExactly(before, r, k, bit);
      assert forall j :: 0 <= j < |before| ==> before[j] == log[j];
    }
  }
}
