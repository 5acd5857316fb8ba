/** The states of the real registers, and the null-terminated array of those waiting to be freed. */
module RealRegisters {
  import opened Options

  datatype State = Free | Unlatched | Assigned | Blocked | Locked

  datatype Virtual = Virtual(id: nat, placeholder: bool)

  // ----- the transitions on values

  /** One register: its state, the virtual register it holds, whether it was ever assigned in this method. */
  datatype View = View(state: State, holds: Option<Virtual>, everAssigned: bool)

  function SetTo(v: View, s: State, toDummy: bool): View {
    if v.state == Locked then v
    else v.(state := s, everAssigned := v.everAssigned || (s == Assigned && !toDummy))
  }

  function AfterBlock(v: View): View {
    if v.state == Assigned || v.state == Free then SetTo(v, Blocked, false) else v
  }

  function AfterUnblock(v: View): View {
    if v.state != Blocked then v
    else if v.holds.Some? then SetTo(v, Assigned, v.holds.value.placeholder)
    else SetTo(v, Free, false)
  }

  function AfterFreeing(v: View): View {
    if v.state == Unlatched then v.(state := Free, holds := None) else v
  }

  /** Unblocking restores a blocked register exactly when its state agrees with what it holds. */
  lemma UnblockUndoesBlock(v: View)
    ensures AfterUnblock(AfterBlock(v)) == v <==>
      && v.state != Blocked
      && (v.state == Free ==> v.holds.None?)
      && (v.state == Assigned ==> v.holds.Some? && (v.everAssigned || v.holds.value.placeholder))
  {
  }

  // ----- runs

  datatype Machine = Machine(views: map<RealRegister, View>, list: seq<RealRegister>)

  datatype Op =
    | SetStateOp(r: RealRegister, s: State, toDummy: bool)
    | AssignOp(r: RealRegister, v: Option<Virtual>)
    | BlockOp(r: RealRegister)
    | UnblockOp(r: RealRegister)
    | FreeUnlatchedOp

  ghost function Listed(list: seq<RealRegister>, r: RealRegister): seq<RealRegister> {
    if r in list then list else list + [r]
  }

  /** What one operation on a register of the machine does. */
  ghost function Step(m: Machine, op: Op): Machine
    requires !op.FreeUnlatchedOp? ==> op.r in m.views
  {
    match op
    case SetStateOp(r, s, toDummy) =>
      Machine(m.views[r := SetTo(m.views[r], s, toDummy)],
        if m.views[r].state != Locked && s == Unlatched then Listed(m.list, r) else m.list)
    case AssignOp(r, v) => m.(views := m.views[r := m.views[r].(holds := v)])
    case BlockOp(r) => m.(views := m.views[r := AfterBlock(m.views[r])])
    case UnblockOp(r) => m.(views := m.views[r := AfterUnblock(m.views[r])])
    case FreeUnlatchedOp => Machine(map r | r in m.views :: AfterFreeing(m.views[r]), [])
  }

  ghost predicate Distinct(list: seq<RealRegister>, registers: set<RealRegister>) {
    && (forall i, j :: 0 <= i < j < |list| ==> list[i] != list[j])
    && (forall i :: 0 <= i < |list| ==> list[i] in registers)
  }

  /** The list has no duplicates, holds only registers of the machine, and misses no unlatched one. */
  ghost predicate Sound(m: Machine) {
    && Distinct(m.list, m.views.Keys)
    && (forall r :: r in m.views && m.views[r].state == Unlatched ==> r in m.list)
  }

  ghost predicate Possible(m: Machine, ops: seq<Op>) {
    forall i :: 0 <= i < |ops| && !ops[i].FreeUnlatchedOp? ==> ops[i].r in m.views
  }

  ghost function Run(m: Machine, ops: seq<Op>): (end: Machine)
    requires Possible(m, ops)
    ensures end.views.Keys == m.views.Keys
    decreases |ops|
  {
    if ops == [] then m else Run(Step(m, ops[0]), ops[1..])
  }

  lemma StepKeepsSound(m: Machine, op: Op)
    requires Sound(m) && (!op.FreeUnlatchedOp? ==> op.r in m.views)
    ensures Sound(Step(m, op))
    ensures forall r :: r in m.views && m.views[r].state == Locked ==> Step(m, op).views[r].state == Locked
  {
  }

  lemma SetStep(m: Machine, r: RealRegister, s: State, toDummy: bool)
    requires r in m.views
    ensures Step(m, SetStateOp(r, s, toDummy)) ==
      Machine(m.views[r := SetTo(m.views[r], s, toDummy)],
        m.list + if m.views[r].state != Locked && s == Unlatched && r !in m.list then [r] else [])
  {
    assert m.list + [] == m.list;
  }

  /** Over any run: nothing unlatched escapes the list, nothing is listed twice, and locked stays locked. */
  lemma {:induction false} RunKeepsSound(m: Machine, ops: seq<Op>)
    requires Sound(m) && Possible(m, ops)
    ensures Sound(Run(m, ops))
    ensures forall r :: r in m.views && m.views[r].state == Locked ==> Run(m, ops).views[r].state == Locked
    decreases |ops|
  {
    if ops != [] {
      StepKeepsSound(m, ops[0]);
      RunKeepsSound(Step(m, ops[0]), ops[1..]);
    }
  }

  /** Freeing at the end of any run leaves nothing unlatched and touches only what was. */
  lemma FreeingEmpties(m: Machine, ops: seq<Op>, r: RealRegister)
    requires Sound(m) && Possible(m, ops) && r in m.views
    ensures var before, after := Run(m, ops), Step(Run(m, ops), FreeUnlatchedOp);
      && after.list == [] && after.views[r].state != Unlatched
      && (before.views[r].state != Unlatched ==> after.views[r] == before.views[r])
      && (before.views[r].state == Unlatched ==> after.views[r].state == Free && after.views[r].holds == None)
  {
  }

  /** A list without duplicates is no longer than the set its members come from. */
  lemma {:induction false} DistinctFits(list: seq<RealRegister>, registers: set<RealRegister>)
    requires Distinct(list, registers)
    ensures |list| <= |registers|
    decreases |list|
  {
    if list != [] {
      DistinctFits(list[1..], registers - {list[0]});
    }
  }

  // ----- the objects

  class CodeGenerator {
    const unlatchedRegisterList: array<RealRegister?>
    ghost var registers: set<RealRegister>
    ghost var list: seq<RealRegister>

    /** The array holds the list and then a null. */
    ghost predicate Terminated()
      reads this, unlatchedRegisterList
    {
      && |list| < unlatchedRegisterList.Length && unlatchedRegisterList[|list|] == null
      && forall i :: 0 <= i < |list| ==> unlatchedRegisterList[i] == list[i]
    }

    ghost function Now(): Machine
      reads this, registers
    {
      Machine(map r | r in registers :: r.Observed(), list)
    }

    /** There is room for every register and the terminator. */
    ghost predicate Valid()
      reads this, unlatchedRegisterList, registers
    {
      && |registers| < unlatchedRegisterList.Length
      && (forall r :: r in registers ==> r.cg == this)
      && Terminated() && Sound(Now())
    }

    method AddToUnlatchedRegisterList(reg: RealRegister)
      requires Terminated() && Distinct(list, registers) && |registers| < unlatchedRegisterList.Length && reg in registers
      modifies unlatchedRegisterList, `list
      ensures Terminated() && list == old(list) + if reg in old(list) then [] else [reg]
    {
      var i := 0;
      while unlatchedRegisterList[i] != null
        invariant 0 <= i <= |list|
        invariant forall k :: 0 <= k < i ==> unlatchedRegisterList[k] != reg
        decreases |list| - i
      {
        if reg == unlatchedRegisterList[i] {
          break;
        }
        i := i + 1;
      }
      if unlatchedRegisterList[i] == null {
        assert i == |list| && reg !in list;
        DistinctFits(list, registers - {reg});
        unlatchedRegisterList[i] := reg;
        unlatchedRegisterList[i + 1] := null;
        list := list + [reg];
      }
    }

    method FreeEach()
      requires Terminated() && Distinct(list, registers)
      modifies registers`state, registers`holds
      ensures forall r :: r in registers ==> r.Observed() == if r in list then AfterFreeing(old(r.Observed())) else old(r.Observed())
    {
      hide AfterFreeing;
      var i := 0;
      while unlatchedRegisterList[i] != null
        invariant 0 <= i <= |list|
        invariant forall k :: 0 <= k < i ==> list[k].Observed() == AfterFreeing(old(list[k].Observed()))
        invariant forall k :: i <= k < |list| ==> list[k].Observed() == old(list[k].Observed())
        invariant forall r :: r in registers && r !in list ==> r.Observed() == old(r.Observed())
        decreases |list| - i
      {
        var reg: RealRegister := unlatchedRegisterList[i];
        reg.FreeIfUnlatched();
        i := i + 1;
      }
    }

    method FreeUnlatchedRegisters()
      requires Valid()
      modifies unlatchedRegisterList, `list, registers`state, registers`holds
      ensures Valid() && Now() == Step(old(Now()), FreeUnlatchedOp)
      ensures list == [] && unlatchedRegisterList[0] == null
      ensures forall r :: r in registers ==>
        if old(r.state) == Unlatched then r.state == Free && r.holds == None
        else r.state == old(r.state) && r.holds == old(r.holds)
    {
      StepKeepsSound(Now(), FreeUnlatchedOp);
      Settled();
      hide Sound, AfterFreeing, Distinct, Step;
      FreeEach();
      unlatchedRegisterList[0] := null;
      list := [];
      AllFreed(old(Now()));
    }

    lemma Settled()
      requires Valid()
      ensures Distinct(list, registers)
      ensures forall r :: r in registers && r !in list ==> r.Observed() == AfterFreeing(r.Observed())
    {
      assert forall r :: r in registers ==> Now().views[r] == r.Observed();
    }

    lemma OneChanged(was: map<RealRegister, View>, changed: RealRegister, v: View)
      requires was.Keys == registers && changed in registers && changed.Observed() == v
      requires forall r :: r in registers && r != changed ==> r.Observed() == was[r]
      ensures Now().views == was[changed := v]
    {
    }

    lemma AllFreed(was: Machine)
      requires was.views.Keys == registers && list == []
      requires forall r :: r in registers ==> r.Observed() == AfterFreeing(was.views[r])
      ensures Now() == Step(was, FreeUnlatchedOp)
    {
    }
  }

  class RealRegister {
    const cg: CodeGenerator
    var state: State
    var holds: Option<Virtual>
    var everAssigned: bool

    constructor (cg: CodeGenerator)
      ensures this.cg == cg && Observed() == View(Free, None, false)
    {
      this.cg, state, holds, everAssigned := cg, Free, None, false;
    }

    function Observed(): View
      reads this
    {
      View(state, holds, everAssigned)
    }

    /** The state may have changed since the register was listed. */
    method FreeIfUnlatched()
      modifies `state, `holds
      ensures Observed() == AfterFreeing(old(Observed()))
      ensures if old(state) == Unlatched then state == Free && holds == None else state == old(state) && holds == old(holds)
    {
      if state == Unlatched {
        state := Free;
        holds := None;
      }
    }

    method SetState(s: State, assignedToDummy: bool) returns (result: State)
      requires cg.Valid() && this in cg.registers
      modifies this`state, this`everAssigned, cg.unlatchedRegisterList, cg`list
      ensures cg.Valid() && cg.Now() == Step(old(cg.Now()), SetStateOp(this, s, assignedToDummy))
      ensures result == state == if old(state) == Locked then Locked else s
      ensures everAssigned == (old(everAssigned) || (old(state) != Locked && s == Assigned && !assignedToDummy))
      ensures cg.list == old(cg.list) + if old(state) != Locked && s == Unlatched && this !in old(cg.list) then [this] else []
    {
      assert Distinct(cg.list, cg.registers) && cg.Now().views.Keys == cg.registers;
      StepKeepsSound(cg.Now(), SetStateOp(this, s, assignedToDummy));
      SetStep(cg.Now(), this, s, assignedToDummy);
      hide Sound, Distinct, Step, Listed, CodeGenerator.Terminated;
      if state == Locked {
        cg.OneChanged(cg.Now().views, this, Observed());
        return state;
      }
      state := s;
      if s == Assigned && !assignedToDummy {
        everAssigned := true;
      } else if s == Unlatched {
        cg.AddToUnlatchedRegisterList(this);
      }
      cg.OneChanged(old(cg.Now().views), this, SetTo(old(Observed()), s, assignedToDummy));
      result := state;
    }

    method Block()
      requires cg.Valid() && this in cg.registers
      modifies this`state, this`everAssigned, cg.unlatchedRegisterList, cg`list
      ensures cg.Valid() && cg.Now() == Step(old(cg.Now()), BlockOp(this))
      ensures state == if old(state) == Assigned || old(state) == Free then Blocked else old(state)
      ensures everAssigned == old(everAssigned) && cg.list == old(cg.list)
    {
      if state == Assigned || state == Free {
        var _ := SetState(Blocked, false);
      }
    }

    method Unblock()
      requires cg.Valid() && this in cg.registers
      modifies this`state, this`everAssigned, cg.unlatchedRegisterList, cg`list
      ensures cg.Valid() && cg.Now() == Step(old(cg.Now()), UnblockOp(this))
      ensures state == if old(state) != Blocked then old(state) else if holds.Some? then Assigned else Free
      ensures everAssigned == (old(everAssigned) || (old(state) == Blocked && holds.Some? && !holds.value.placeholder))
      ensures cg.list == old(cg.list)
    {
      if state == Blocked {
        if holds.Some? {
          var _ := SetState(Assigned, holds.value.placeholder);
        } else {
          var _ := SetState(Free, false);
        }
      }
    }
  }
}
