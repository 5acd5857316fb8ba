/** Lowering a multiplication by a positive or negative power of two to a shift, in place, in a graph of
shared nodes. */
module MultiplyLowering {
  import opened Words
  import opened PowerOfTwo
  import opened ILNodes

  /** A multiplication whose second operand is a constant of its own width. */
  predicate IsConstMultiply(nodes: seq<Node>, p: nat) {
    p < |nodes| && |nodes[p].children| == 2 && nodes[p].children[0] < |nodes| && nodes[p].children[1] < |nodes|
    && var second := nodes[nodes[p].children[1]];
      second.children == []
      && ((nodes[p].op == IMul && second.op == IConst && IsSigned(32, second.value))
          || (nodes[p].op == LMul && second.op == LConst && IsSigned(64, second.value)))
  }

  function ShiftOp(op: Opcode): Opcode {
    if op == IMul then IShl else LShl
  }

  function NegateOp(op: Opcode): Opcode {
    if op == IMul then INeg else LNeg
  }

  function NewNode(op: Opcode, children: seq<nat>, value: int, visitCount: nat): Node {
    Node(op, children, value, 1, false, visitCount, 0)
  }

  /** The pool after lowering, in the four cases: is the constant positive, and is it only used here? */
  function Lowered(nodes: seq<Node>, p: nat, shift: int): seq<Node>
    requires IsConstMultiply(nodes, p)
  {
    var n, parent, first, s := |nodes|, nodes[p], nodes[p].children[0], nodes[p].children[1];
    var second := nodes[s];
    if second.value > 0 && second.refCount == 1 then
      nodes[s := second.(op := IConst, value := shift)][p := parent.(op := ShiftOp(parent.op))]
    else if second.value > 0 then
      (nodes + [NewNode(IConst, [], shift, 0)])
        [s := second.(refCount := second.refCount - 1)][p := parent.(op := ShiftOp(parent.op), children := [first, n])]
    else if second.refCount == 1 then
      (nodes + [NewNode(ShiftOp(parent.op), [first, s], 0, parent.visitCount)])
        [s := second.(op := IConst, value := shift)][p := parent.(op := NegateOp(parent.op), children := [n])]
    else
      (nodes + [NewNode(IConst, [], shift, 0), NewNode(ShiftOp(parent.op), [first, n], 0, 0)])
        [s := second.(refCount := second.refCount - 1)][p := parent.(op := NegateOp(parent.op), children := [n + 1])]
  }

  /** Ranks with room for the new nodes just below the multiplication. */
  function NewRank(nodes: seq<Node>, rank: seq<nat>, p: nat): seq<nat>
    requires IsConstMultiply(nodes, p) && Acyclic(nodes, rank)
  {
    var second := nodes[nodes[p].children[1]];
    assert rank[nodes[p].children[0]] < rank[p];
    var doubled := seq(|rank|, i requires 0 <= i < |rank| => 2 * rank[i]);
    if second.value > 0 && second.refCount == 1 then doubled
    else if second.value > 0 then doubled + [0]
    else if second.refCount == 1 then doubled + [2 * rank[p] - 1]
    else doubled + [0, 2 * rank[p] - 1]
  }

  lemma LoweredAcyclic(nodes: seq<Node>, rank: seq<nat>, p: nat, shift: int)
    requires IsConstMultiply(nodes, p) && Acyclic(nodes, rank)
    ensures Acyclic(Lowered(nodes, p, shift), NewRank(nodes, rank, p))
  {
    var first, s := nodes[p].children[0], nodes[p].children[1];
    assert rank[first] < rank[p] && rank[s] < rank[p];
    var after, rank' := Lowered(nodes, p, shift), NewRank(nodes, rank, p);
    assert |rank'| == |after| >= |nodes| && forall j :: 0 <= j < |nodes| ==> rank'[j] == 2 * rank[j];
    forall i, k | 0 <= i < |after| && 0 <= k < |after[i].children|
      ensures after[i].children[k] < |after| && rank'[after[i].children[k]] < rank'[i]
    {
      if i < |nodes| && i != p {
        assert after[i].children == nodes[i].children;
        hide Lowered, NewRank;
      }
    }
  }

  // ----- reference counts

  /** The parent's references cover the constant, so a count of one means that nothing else refers to it. */
  lemma PrivateConstant(nodes: seq<Node>, external: seq<int>, p: nat, j: nat)
    requires IsConstMultiply(nodes, p) && Counted(nodes, external) && IsLive(nodes[p])
    requires nodes[nodes[p].children[1]].refCount == 1
    requires j < |nodes| && j != p && IsLive(nodes[j])
    ensures nodes[p].children[1] !in nodes[j].children && nodes[p].children[0] != nodes[p].children[1]
    ensures external[nodes[p].children[1]] == 0
  {
    var s := nodes[p].children[1];
    LiveEdgesOfTwo(nodes, p, j, s);
    assert multiset(nodes[p].children) == multiset{nodes[p].children[0], s} by {
      assert nodes[p].children == [nodes[p].children[0], s];
    }
  }

  lemma PairCount(x: nat, y: nat, i: nat)
    ensures multiset([x, y])[i] == (if i == x then 1 else 0) + (if i == y then 1 else 0)
  {
  }

  function Zeros(n: nat): seq<int> {
    seq(n, i => 0)
  }

  lemma EdgesOfPair(n: Node, x: nat, y: nat, i: nat)
    requires IsLive(n) && n.children == [x, y]
    ensures EdgesOf(n, i) == (if i == x then 1 else 0) + (if i == y then 1 else 0)
  {
    PairCount(x, y, i);
  }

  lemma EdgesOfFew(n: Node, c: nat, i: nat)
    ensures IsLive(n) && n.children == [c] ==> EdgesOf(n, i) == if i == c then 1 else 0
    ensures n.children == [] ==> EdgesOf(n, i) == 0
  {
  }

  /** The change in one node's live references, when the parent held one to `first` and one to `s`. */
  lemma ShiftEdges(nodes: seq<Node>, p: nat, shift: int, i: nat)
    requires IsConstMultiply(nodes, p) && IsLive(nodes[p]) && p != nodes[p].children[1]
    requires nodes[nodes[p].children[1]].value > 0
    ensures var s := nodes[p].children[1];
      LiveEdges(Lowered(nodes, p, shift), i) == LiveEdges(nodes, i)
        + if nodes[s].refCount == 1 then 0 else (if i == |nodes| then 1 else 0) - (if i == s then 1 else 0)
  {
    hide LiveEdges, EdgesOf;
    var n, parent, first, s := |nodes|, nodes[p], nodes[p].children[0], nodes[p].children[1];
    var second := nodes[s];
    assert parent.children == [first, s];
    EdgesOfPair(parent, first, s, i);
    EdgesOfFew(second, 0, i);
    if second.refCount == 1 {
      var second', parent' := second.(op := IConst, value := shift), parent.(op := ShiftOp(parent.op));
      EdgesOfFew(second', 0, i);
      EdgesOfPair(parent', first, s, i);
      UpdateTwo(nodes, s, second', p, parent', i);
    } else {
      var constant := NewNode(IConst, [], shift, 0);
      var second', parent' := second.(refCount := second.refCount - 1), parent.(op := ShiftOp(parent.op), children := [first, n]);
      EdgesOfFew(constant, 0, i);
      EdgesOfFew(second', 0, i);
      EdgesOfPair(parent', first, n, i);
      LiveEdgesAppend(nodes, constant, i);
      UpdateTwo(nodes + [constant], s, second', p, parent', i);
    }
  }

  lemma NegatePrivateEdges(nodes: seq<Node>, p: nat, shift: int, i: nat)
    requires IsConstMultiply(nodes, p) && IsLive(nodes[p]) && p != nodes[p].children[1]
    requires nodes[nodes[p].children[1]].value <= 0 && nodes[nodes[p].children[1]].refCount == 1
    ensures LiveEdges(Lowered(nodes, p, shift), i) == LiveEdges(nodes, i) + if i == |nodes| then 1 else 0
  {
    hide LiveEdges, EdgesOf;
    var n, parent, first, s := |nodes|, nodes[p], nodes[p].children[0], nodes[p].children[1];
    var shl := NewNode(ShiftOp(parent.op), [first, s], 0, parent.visitCount);
    var second', parent' := nodes[s].(op := IConst, value := shift), parent.(op := NegateOp(parent.op), children := [n]);
    assert parent.children == [first, s];
    EdgesOfPair(parent, first, s, i);
    EdgesOfPair(shl, first, s, i);
    EdgesOfFew(nodes[s], 0, i);
    EdgesOfFew(second', 0, i);
    EdgesOfFew(parent', n, i);
    LiveEdgesAppend(nodes, shl, i);
    UpdateTwo(nodes + [shl], s, second', p, parent', i);
  }

  lemma AppendTwo(nodes: seq<Node>, x: Node, y: Node, i: nat)
    ensures LiveEdges(nodes + [x, y], i) == LiveEdges(nodes, i) + EdgesOf(x, i) + EdgesOf(y, i)
  {
    LiveEdgesAppend(nodes, x, i);
    LiveEdgesAppend(nodes + [x], y, i);
    assert nodes + [x] + [y] == nodes + [x, y];
  }

  lemma NegateSharedEdges(nodes: seq<Node>, p: nat, shift: int, i: nat)
    requires IsConstMultiply(nodes, p) && IsLive(nodes[p]) && p != nodes[p].children[1]
    requires nodes[nodes[p].children[1]].value <= 0 && nodes[nodes[p].children[1]].refCount != 1
    ensures var s := nodes[p].children[1];
      LiveEdges(Lowered(nodes, p, shift), i) == LiveEdges(nodes, i)
        + (if |nodes| <= i < |nodes| + 2 then 1 else 0) - (if i == s then 1 else 0)
  {
    hide LiveEdges, EdgesOf;
    var n, parent, first, s := |nodes|, nodes[p], nodes[p].children[0], nodes[p].children[1];
    var constant, shl := NewNode(IConst, [], shift, 0), NewNode(ShiftOp(parent.op), [first, n], 0, 0);
    var second', parent' := nodes[s].(refCount := nodes[s].refCount - 1), parent.(op := NegateOp(parent.op), children := [n + 1]);
    assert parent.children == [first, s];
    EdgesOfPair(parent, first, s, i);
    EdgesOfPair(shl, first, n, i);
    EdgesOfFew(constant, 0, i);
    EdgesOfFew(nodes[s], 0, i);
    EdgesOfFew(second', 0, i);
    EdgesOfFew(parent', n + 1, i);
    AppendTwo(nodes, constant, shl, i);
    UpdateTwo(nodes + [constant, shl], s, second', p, parent', i);
  }

  lemma UpdateTwo(nodes: seq<Node>, s: nat, second: Node, p: nat, parent: Node, i: nat)
    requires s < |nodes| && p < |nodes| && s != p
    ensures LiveEdges(nodes[s := second][p := parent], i)
      == LiveEdges(nodes, i) - EdgesOf(nodes[s], i) + EdgesOf(second, i) - EdgesOf(nodes[p], i) + EdgesOf(parent, i)
  {
    LiveEdgesUpdate(nodes, s, second, i);
    LiveEdgesUpdate(nodes[s := second], p, parent, i);
  }

  /** Lowering keeps every count equal to the references. */
  lemma LoweredCounted(nodes: seq<Node>, rank: seq<nat>, external: seq<int>, p: nat, shift: int)
    requires IsConstMultiply(nodes, p) && Acyclic(nodes, rank) && Counted(nodes, external) && IsLive(nodes[p])
    ensures Counted(Lowered(nodes, p, shift), external + Zeros(|Lowered(nodes, p, shift)| - |nodes|))
  {
    var after := Lowered(nodes, p, shift);
    forall i | 0 <= i < |after|
      ensures after[i].refCount == (external + Zeros(|after| - |nodes|))[i] + LiveEdges(after, i)
    {
      LoweredCountedAt(nodes, rank, external, p, shift, i);
    }
  }

  /** The counts of the rewritten pool. */
  lemma LoweredCounts(nodes: seq<Node>, p: nat, shift: int, i: nat)
    requires IsConstMultiply(nodes, p) && p != nodes[p].children[1] && i < |Lowered(nodes, p, shift)|
    ensures Lowered(nodes, p, shift)[i].refCount == (if i < |nodes| then nodes[i].refCount else 1)
      - (if i == nodes[p].children[1] && nodes[i].refCount != 1 then 1 else 0)
    ensures |Lowered(nodes, p, shift)| == |nodes| + NewNodes(nodes, p)
  {
  }

  function NewNodes(nodes: seq<Node>, p: nat): nat
    requires IsConstMultiply(nodes, p)
  {
    var second := nodes[nodes[p].children[1]];
    if second.value > 0 then (if second.refCount == 1 then 0 else 1) else if second.refCount == 1 then 1 else 2
  }

  lemma LoweredCountedAt(nodes: seq<Node>, rank: seq<nat>, external: seq<int>, p: nat, shift: int, i: nat)
    requires IsConstMultiply(nodes, p) && Acyclic(nodes, rank) && Counted(nodes, external) && IsLive(nodes[p])
    requires i < |Lowered(nodes, p, shift)|
    ensures Lowered(nodes, p, shift)[i].refCount == (if i < |nodes| then external[i] else 0) + LiveEdges(Lowered(nodes, p, shift), i)
  {
    hide Lowered, LiveEdges, EdgesOf;
    var s := nodes[p].children[1];
    assert rank[s] < rank[p];
    if i >= |nodes| {
      NoEdgesToNew(nodes, rank, i);
    }
    LoweredCounts(nodes, p, shift, i);
    if nodes[s].value > 0 {
      ShiftEdges(nodes, p, shift, i);
    } else if nodes[s].refCount == 1 {
      NegatePrivateEdges(nodes, p, shift, i);
    } else {
      NegateSharedEdges(nodes, p, shift, i);
    }
  }

  lemma NoEdgesToNew(nodes: seq<Node>, rank: seq<nat>, i: nat)
    requires Acyclic(nodes, rank) && i >= |nodes|
    ensures LiveEdges(nodes, i) == 0
  {
    NoEdges(nodes, i);
  }

  // ----- values

  lemma PairValues(nodes: seq<Node>, rank: seq<nat>, i: nat, other: Meaning)
    requires Acyclic(nodes, rank) && i < |nodes| && |nodes[i].children| == 2
    ensures nodes[i].children[0] < |nodes| && nodes[i].children[1] < |nodes|
    ensures Eval(nodes, rank, i, other)
      == Apply(nodes[i], [Eval(nodes, rank, nodes[i].children[0], other), Eval(nodes, rank, nodes[i].children[1], other)], other)
  {
    var values := EvalChildren(nodes, rank, i, 2, other);
    ChildAt(nodes, rank, i, 2, 0, other);
    ChildAt(nodes, rank, i, 2, 1, other);
    assert values == [Eval(nodes, rank, nodes[i].children[0], other), Eval(nodes, rank, nodes[i].children[1], other)];
  }

  lemma SingleValue(nodes: seq<Node>, rank: seq<nat>, i: nat, other: Meaning)
    requires Acyclic(nodes, rank) && i < |nodes| && |nodes[i].children| == 1
    ensures nodes[i].children[0] < |nodes|
    ensures Eval(nodes, rank, i, other) == Apply(nodes[i], [Eval(nodes, rank, nodes[i].children[0], other)], other)
  {
    var values := EvalChildren(nodes, rank, i, 1, other);
    ChildAt(nodes, rank, i, 1, 0, other);
    assert values == [Eval(nodes, rank, nodes[i].children[0], other)];
  }

  /** A set of nodes that a rewrite leaves alone, except for one that keeps its value, keeps its values. */
  lemma {:induction false} EvalKept(nodes: seq<Node>, rank: seq<nat>, after: seq<Node>, rank': seq<nat>,
                                    keep: set<nat>, p: nat, i: nat, other: Meaning)
    requires Acyclic(nodes, rank) && Acyclic(after, rank') && |nodes| <= |after| && i < |nodes| && i in keep
    requires forall j :: j in keep && j != p && j < |nodes| ==>
      after[j].op == nodes[j].op && after[j].value == nodes[j].value && after[j].children == nodes[j].children
    requires forall j, k :: j in keep && j != p && j < |nodes| && 0 <= k < |nodes[j].children| ==> nodes[j].children[k] in keep
    requires p in keep && p < |nodes| ==> Eval(after, rank', p, other) == Eval(nodes, rank, p, other)
    ensures Eval(after, rank', i, other) == Eval(nodes, rank, i, other)
    decreases rank[i], 1, 0
  {
    if i != p {
      EvalChildrenKept(nodes, rank, after, rank', keep, p, i, |nodes[i].children|, other);
    }
  }

  lemma {:induction false} EvalChildrenKept(nodes: seq<Node>, rank: seq<nat>, after: seq<Node>, rank': seq<nat>,
                                            keep: set<nat>, p: nat, i: nat, k: nat, other: Meaning)
    requires Acyclic(nodes, rank) && Acyclic(after, rank') && |nodes| <= |after| && i < |nodes| && i in keep && i != p
    requires k <= |nodes[i].children|
    requires forall j :: j in keep && j != p && j < |nodes| ==>
      after[j].op == nodes[j].op && after[j].value == nodes[j].value && after[j].children == nodes[j].children
    requires forall j, k :: j in keep && j != p && j < |nodes| && 0 <= k < |nodes[j].children| ==> nodes[j].children[k] in keep
    requires p in keep && p < |nodes| ==> Eval(after, rank', p, other) == Eval(nodes, rank, p, other)
    ensures EvalChildren(after, rank', i, k, other) == EvalChildren(nodes, rank, i, k, other)
    decreases rank[i], 0, k
  {
    if k > 0 {
      EvalChildrenKept(nodes, rank, after, rank', keep, p, i, k - 1, other);
      EvalKept(nodes, rank, after, rank', keep, p, nodes[i].children[k - 1], other);
    }
  }

  /** The nodes whose values must survive: all that are referenced, except a constant only used here. */
  function Kept(nodes: seq<Node>, p: nat): set<nat>
    requires IsConstMultiply(nodes, p)
  {
    var s := nodes[p].children[1];
    set i: nat | i < |nodes| && nodes[i].refCount > 0 && (i == s ==> nodes[s].refCount != 1)
  }

  lemma KeptClosed(nodes: seq<Node>, external: seq<int>, p: nat)
    requires IsConstMultiply(nodes, p) && Counted(nodes, external) && IsLive(nodes[p])
    requires forall j :: 0 <= j < |nodes| ==> !nodes[j].hasRegister
    requires forall j, k :: 0 <= j < |nodes| && 0 <= k < |nodes[j].children| ==> nodes[j].children[k] < |nodes|
    ensures forall j, k :: j in Kept(nodes, p) && j != p && 0 <= k < |nodes[j].children| ==> nodes[j].children[k] in Kept(nodes, p)
    ensures nodes[p].children[0] in Kept(nodes, p)
  {
    var s := nodes[p].children[1];
    forall j, k | j in Kept(nodes, p) && j != p && 0 <= k < |nodes[j].children|
      ensures nodes[j].children[k] in Kept(nodes, p)
    {
      ChildIsReferenced(nodes, external, j, k);
      if nodes[s].refCount == 1 {
        PrivateConstant(nodes, external, p, j);
      }
    }
    ChildIsReferenced(nodes, external, p, 0);
    LiveEdgesAtLeast(nodes, p, s);
    assert nodes[p].children == [nodes[p].children[0], s];
    PairCount(nodes[p].children[0], s, s);
  }

  /** The first operand keeps its value: nothing below the multiplication is touched. */
  lemma FirstOperandKept(nodes: seq<Node>, rank: seq<nat>, external: seq<int>, p: nat, shift: int, other: Meaning)
    requires IsConstMultiply(nodes, p) && Acyclic(nodes, rank) && Counted(nodes, external) && IsLive(nodes[p])
    requires forall j :: 0 <= j < |nodes| ==> !nodes[j].hasRegister
    requires Acyclic(Lowered(nodes, p, shift), NewRank(nodes, rank, p))
    ensures Eval(Lowered(nodes, p, shift), NewRank(nodes, rank, p), nodes[p].children[0], other)
      == Eval(nodes, rank, nodes[p].children[0], other)
  {
    KeptClosed(nodes, external, p);
    var keep := set j | j in Kept(nodes, p) && j < |nodes| && rank[j] < rank[p];
    EvalKept(nodes, rank, Lowered(nodes, p, shift), NewRank(nodes, rank, p), keep, p, nodes[p].children[0], other);
  }

  lemma SmallWord(w: nat, shift: nat)
    requires (w == 32 || w == 64) && shift < w
    ensures Wrap(32, shift) % w == shift
  {
    Pow2Values();
    WrapId(32, shift);
  }

  function Width(op: Opcode): nat {
    if op == IMul || op == IShl || op == INeg then 32 else 64
  }

  /** The word `x` times 2^shift, or its negation. */
  function PowerProduct(w: nat, x: int, shift: nat, positive: bool): int {
    var shifted := Wrap(w, x * Pow2(shift));
    if positive then shifted else Wrap(w, -shifted)
  }

  /** `i` shifts its first operand left by a constant. */
  predicate IsConstShift(nodes: seq<Node>, i: nat, op: Opcode, shift: nat) {
    && i < |nodes| && nodes[i].op == op && (op == IShl || op == LShl) && shift < Width(op) && |nodes[i].children| == 2
    && nodes[i].children[1] < |nodes| && nodes[nodes[i].children[1]].op == IConst && nodes[nodes[i].children[1]].value == shift
  }

  lemma ShiftedValue(nodes: seq<Node>, rank: seq<nat>, i: nat, op: Opcode, shift: nat, other: Meaning)
    requires Acyclic(nodes, rank) && IsConstShift(nodes, i, op, shift)
    ensures nodes[i].children[0] < |nodes|
    ensures Eval(nodes, rank, i, other) == Wrap(Width(op), Eval(nodes, rank, nodes[i].children[0], other) * Pow2(shift))
  {
    PairValues(nodes, rank, i, other);
    SmallWord(Width(op), shift);
  }

  lemma NegatedShiftValue(nodes: seq<Node>, rank: seq<nat>, i: nat, c: nat, op: Opcode, shift: nat, other: Meaning)
    requires Acyclic(nodes, rank) && IsConstShift(nodes, c, op, shift)
    requires i < |nodes| && nodes[i].children == [c] && nodes[i].op == if op == IShl then INeg else LNeg
    ensures nodes[c].children[0] < |nodes|
    ensures Eval(nodes, rank, i, other)
      == Wrap(Width(op), -Wrap(Width(op), Eval(nodes, rank, nodes[c].children[0], other) * Pow2(shift)))
  {
    SingleValue(nodes, rank, i, other);
    ShiftedValue(nodes, rank, c, op, shift, other);
  }

  /** The multiplication, from the value of its first operand. */
  lemma MultiplyValue(nodes: seq<Node>, rank: seq<nat>, p: nat, shift: nat, other: Meaning)
    requires IsConstMultiply(nodes, p) && Acyclic(nodes, rank)
    requires var v := nodes[nodes[p].children[1]].value; v == Pow2(shift) || v == -(Pow2(shift) as int)
    ensures Eval(nodes, rank, p, other) == PowerProduct(Width(nodes[p].op), Eval(nodes, rank, nodes[p].children[0], other),
      shift, nodes[nodes[p].children[1]].value > 0)
  {
    PairValues(nodes, rank, p, other);
    TimesPower(Width(nodes[p].op), Eval(nodes, rank, nodes[p].children[0], other), nodes[nodes[p].children[1]].value, shift);
  }

  /** What takes the place of a multiplication `op` of `first`: a shift, or the negation of one. */
  predicate IsReplacement(nodes: seq<Node>, p: nat, first: nat, op: Opcode, shift: nat, positive: bool) {
    p < |nodes|
    && if positive then (IsConstShift(nodes, p, ShiftOp(op), shift) && nodes[p].children[0] == first)
       else (|nodes[p].children| == 1 && IsConstShift(nodes, nodes[p].children[0], ShiftOp(op), shift)
             && nodes[nodes[p].children[0]].children[0] == first && nodes[p].op == NegateOp(op))
  }

  lemma ReplacementShape(nodes: seq<Node>, p: nat, shift: nat)
    requires IsConstMultiply(nodes, p) && p !in nodes[p].children && nodes[nodes[p].children[1]].refCount >= 1
    requires nodes[p].children[0] == nodes[p].children[1] ==> nodes[nodes[p].children[1]].refCount >= 2
    requires shift < Width(nodes[p].op)
    ensures IsReplacement(Lowered(nodes, p, shift), p, nodes[p].children[0], nodes[p].op, shift, nodes[nodes[p].children[1]].value > 0)
  {
  }

  /** What replaced it, from the value of the same operand. */
  lemma ReplacementValue(nodes: seq<Node>, rank: seq<nat>, p: nat, first: nat, op: Opcode, shift: nat, positive: bool, other: Meaning)
    requires Acyclic(nodes, rank) && IsReplacement(nodes, p, first, op, shift, positive) && (op == IMul || op == LMul)
    ensures first < |nodes|
    ensures Eval(nodes, rank, p, other) == PowerProduct(Width(op), Eval(nodes, rank, first, other), shift, positive)
  {
    hide Eval, Apply;
    if positive {
      ShiftedValue(nodes, rank, p, ShiftOp(op), shift, other);
    } else {
      NegatedShiftValue(nodes, rank, p, nodes[p].children[0], ShiftOp(op), shift, other);
    }
  }

  /** The operands are below the multiplication and referenced, twice if they are the same node. */
  lemma SharedOperands(nodes: seq<Node>, rank: seq<nat>, external: seq<int>, p: nat)
    requires IsConstMultiply(nodes, p) && Acyclic(nodes, rank) && Counted(nodes, external) && IsLive(nodes[p])
    ensures p !in nodes[p].children && nodes[nodes[p].children[1]].refCount >= 1
    ensures nodes[p].children[0] == nodes[p].children[1] ==> nodes[nodes[p].children[1]].refCount >= 2
  {
    var s := nodes[p].children[1];
    assert rank[nodes[p].children[0]] < rank[p] && rank[s] < rank[p];
    LiveEdgesAtLeast(nodes, p, s);
    assert nodes[p].children == [nodes[p].children[0], s];
    PairCount(nodes[p].children[0], s, s);
  }

  /** The multiplication keeps its value. */
  lemma KeptUntouched(nodes: seq<Node>, p: nat, shift: nat)
    requires IsConstMultiply(nodes, p) && nodes[p].children[1] != p
    ensures |nodes| <= |Lowered(nodes, p, shift)|
    ensures forall j :: j in Kept(nodes, p) && j != p ==>
      var after := Lowered(nodes, p, shift)[j];
      after.op == nodes[j].op && after.value == nodes[j].value && after.children == nodes[j].children
  {
  }

  lemma ParentKept(nodes: seq<Node>, rank: seq<nat>, external: seq<int>, p: nat, shift: nat, other: Meaning)
    requires IsConstMultiply(nodes, p) && Acyclic(nodes, rank) && Counted(nodes, external) && IsLive(nodes[p])
    requires forall j :: 0 <= j < |nodes| ==> !nodes[j].hasRegister
    requires 0 < shift < Width(nodes[p].op)
    requires var v := nodes[nodes[p].children[1]].value; v == Pow2(shift) || v == -(Pow2(shift) as int)
    requires Acyclic(Lowered(nodes, p, shift), NewRank(nodes, rank, p))
    ensures Eval(Lowered(nodes, p, shift), NewRank(nodes, rank, p), p, other) == Eval(nodes, rank, p, other)
  {
    hide Eval, Apply, Lowered, NewRank, PowerProduct, IsReplacement;
    SharedOperands(nodes, rank, external, p);
    FirstOperandKept(nodes, rank, external, p, shift, other);
    MultiplyValue(nodes, rank, p, shift, other);
    ReplacementShape(nodes, p, shift);
    ReplacementValue(Lowered(nodes, p, shift), NewRank(nodes, rank, p), p, nodes[p].children[0], nodes[p].op, shift,
      nodes[nodes[p].children[1]].value > 0, other);
  }

  /** Every referenced node keeps its value in every environment; the exception is a constant that only
      the multiplication refers to, which becomes the shift amount. */
  lemma LoweredKeepsValues(nodes: seq<Node>, rank: seq<nat>, external: seq<int>, p: nat, shift: nat, i: nat, other: Meaning)
    requires IsConstMultiply(nodes, p) && Acyclic(nodes, rank) && Counted(nodes, external) && IsLive(nodes[p])
    requires forall j :: 0 <= j < |nodes| ==> !nodes[j].hasRegister
    requires 0 < shift < Width(nodes[p].op)
    requires var v := nodes[nodes[p].children[1]].value; v == Pow2(shift) || v == -(Pow2(shift) as int)
    requires i < |nodes| && i in Kept(nodes, p)
    ensures Acyclic(Lowered(nodes, p, shift), NewRank(nodes, rank, p))
    ensures Eval(Lowered(nodes, p, shift), NewRank(nodes, rank, p), i, other) == Eval(nodes, rank, i, other)
  {
    LoweredAcyclic(nodes, rank, p, shift);
    KeptClosed(nodes, external, p);
    ParentKept(nodes, rank, external, p, shift, other);
    KeptUntouched(nodes, p, shift);
    hide Eval, Lowered, NewRank, LiveEdges, Kept;
    EvalKept(nodes, rank, Lowered(nodes, p, shift), NewRank(nodes, rank, p), Kept(nodes, p), p, i, other);
  }

  method ShiftPrivate(pool: NodePool, p: nat, shift: int)
    requires IsConstMultiply(pool.nodes, p) && pool.nodes[p].children[1] != p
    requires var second := pool.nodes[pool.nodes[p].children[1]]; second.value > 0 && second.refCount == 1
    modifies pool
    ensures pool.nodes == Lowered(old(pool.nodes), p, shift)
  {
    var s := pool.nodes[p].children[1];
    if pool.nodes[p].op == IMul {
      pool.nodes := pool.nodes[p := pool.nodes[p].(op := IShl)];
    } else {
      pool.nodes := pool.nodes[s := pool.nodes[s].(op := IConst)];
      pool.nodes := pool.nodes[p := pool.nodes[p].(op := LShl)];
    }
    pool.nodes := pool.nodes[s := pool.nodes[s].(value := shift)];
  }

  method ShiftShared(pool: NodePool, p: nat, shift: int)
    requires IsConstMultiply(pool.nodes, p) && pool.nodes[p].children[1] != p
    requires var second := pool.nodes[pool.nodes[p].children[1]]; second.value > 0 && second.refCount > 1
    modifies pool
    ensures pool.nodes == Lowered(old(pool.nodes), p, shift)
  {
    var first, s, child := pool.nodes[p].children[0], pool.nodes[p].children[1], |pool.nodes|;
    pool.nodes := pool.nodes + [Node(IConst, [], shift, 0, false, 0, 0)];
    pool.nodes := pool.nodes[s := pool.nodes[s].(refCount := pool.nodes[s].refCount - 1)];
    pool.nodes := pool.nodes[p := pool.nodes[p].(children := [first, child])];
    pool.nodes := pool.nodes[child := pool.nodes[child].(refCount := pool.nodes[child].refCount + 1)];
    pool.nodes := pool.nodes[p := pool.nodes[p].(op := ShiftOp(pool.nodes[p].op))];
  }

  method NegatePrivate(pool: NodePool, p: nat, shift: int)
    requires IsConstMultiply(pool.nodes, p) && pool.nodes[p].children[1] != p
    requires var second := pool.nodes[pool.nodes[p].children[1]]; second.value <= 0 && second.refCount == 1
    modifies pool
    ensures pool.nodes == Lowered(old(pool.nodes), p, shift)
  {
    var first, s, child := pool.nodes[p].children[0], pool.nodes[p].children[1], |pool.nodes|;
    var isInteger := pool.nodes[p].op == IMul;
    pool.nodes := pool.nodes + [Node(ShiftOp(pool.nodes[p].op), [], 0, 0, false, pool.nodes[p].visitCount, 0)];
    pool.nodes := pool.nodes[child := pool.nodes[child].(refCount := pool.nodes[child].refCount + 1)];
    pool.nodes := pool.nodes[child := pool.nodes[child].(children := [first, s])];
    if isInteger {
      pool.nodes := pool.nodes[p := pool.nodes[p].(op := INeg)];
    } else {
      pool.nodes := pool.nodes[s := pool.nodes[s].(op := IConst)];
      pool.nodes := pool.nodes[p := pool.nodes[p].(op := LNeg)];
    }
    pool.nodes := pool.nodes[s := pool.nodes[s].(value := shift)];
    pool.nodes := pool.nodes[p := pool.nodes[p].(children := [child])];
  }

  method NegateShared(pool: NodePool, p: nat, shift: int)
    requires IsConstMultiply(pool.nodes, p) && pool.nodes[p].children[0] != p && pool.nodes[p].children[1] != p
    requires var second := pool.nodes[pool.nodes[p].children[1]]; second.value <= 0 && second.refCount > 1
    modifies pool
    ensures pool.nodes == Lowered(old(pool.nodes), p, shift)
  {
    var s, shl := pool.nodes[p].children[1], |pool.nodes| + 1;
    AppendShift(pool, p, shift);
    pool.nodes := pool.nodes[s := pool.nodes[s].(refCount := pool.nodes[s].refCount - 1)];
    pool.nodes := pool.nodes[p := pool.nodes[p].(op := NegateOp(pool.nodes[p].op))];
    pool.nodes := pool.nodes[p := pool.nodes[p].(children := [shl])];
    pool.nodes := pool.nodes[shl := pool.nodes[shl].(refCount := pool.nodes[shl].refCount + 1)];
  }

  /** A new constant, and a new shift by it of the first operand, whose reference moves from one parent to the
      other. */
  method AppendShift(pool: NodePool, p: nat, shift: int)
    requires IsConstMultiply(pool.nodes, p)
    modifies pool
    ensures var n := |old(pool.nodes)|;
      pool.nodes == old(pool.nodes) + [Node(IConst, [], shift, 1, false, 0, 0),
        Node(ShiftOp(old(pool.nodes[p].op)), [old(pool.nodes[p].children[0]), n], 0, 0, false, 0, 0)]
  {
    var first, constant, shl := pool.nodes[p].children[0], |pool.nodes|, |pool.nodes| + 1;
    pool.nodes := pool.nodes + [Node(IConst, [], shift, 0, false, 0, 0), Node(ShiftOp(pool.nodes[p].op), [], 0, 0, false, 0, 0)];
    pool.nodes := pool.nodes[shl := pool.nodes[shl].(children := [first, constant])];
    pool.nodes := pool.nodes[first := pool.nodes[first].(refCount := pool.nodes[first].refCount + 1)];
    pool.nodes := pool.nodes[constant := pool.nodes[constant].(refCount := pool.nodes[constant].refCount + 1)];
    pool.nodes := pool.nodes[first := pool.nodes[first].(refCount := pool.nodes[first].refCount - 1)];
  }

  /** The lowering of a multiplication before its children are visited.  `consent` is the optimizer's
      permission.  The graph changes exactly when the constant is 2^n or -2^n for some n > 0. */
  method LowerMultiply(pool: NodePool, p: nat, consent: bool, ghost rank: seq<nat>, ghost external: seq<int>)
    returns (shift: int)
    requires IsConstMultiply(pool.nodes, p) && Acyclic(pool.nodes, rank) && Counted(pool.nodes, external)
    requires IsLive(pool.nodes[p])
    modifies pool
    ensures shift > 0 <==> consent && exists n: nat ::
      n > 0 && var value := old(pool.nodes[pool.nodes[p].children[1]]).value; value == Pow2(n) || value == -(Pow2(n) as int)
    ensures shift > 0 ==> var value := old(pool.nodes[pool.nodes[p].children[1]]).value;
      && shift < Width(old(pool.nodes[p]).op)
      && (value == Pow2(shift) || value == -(Pow2(shift) as int))
    ensures pool.nodes == if shift > 0 then Lowered(old(pool.nodes), p, shift) else old(pool.nodes)
    ensures shift > 0 ==> IsShiftOf(old(pool.nodes), pool.nodes, p, shift)
  {
    shift := -1;
    if consent {
      var s := pool.nodes[p].children[1];
      assert rank[pool.nodes[p].children[0]] < rank[p] && rank[s] < rank[p];
      ChildIsReferenced(pool.nodes, external, p, 1);
      var value := pool.nodes[s].value;
      Pow2Values();
      shift := CheckPositiveOrNegativePowerOfTwo(64, value);
      ShiftFits(pool.nodes[p].op, value, shift);
      if shift > 0 {
        LoweredIsShift(pool.nodes, p, shift);
        if value > 0 {
          if pool.nodes[s].refCount == 1 {
            ShiftPrivate(pool, p, shift);
          } else if pool.nodes[s].refCount > 1 {
            ShiftShared(pool, p, shift);
          }
        } else {
          if pool.nodes[s].refCount == 1 {
            NegatePrivate(pool, p, shift);
          } else if pool.nodes[s].refCount > 1 {
            NegateShared(pool, p, shift);
          }
        }
      }
    }
  }

  /** The multiplication has become a shift of its first operand, or the negation of one: by its own constant if
      nobody else refers to that, and otherwise by a new one. */
  predicate IsShiftOf(was: seq<Node>, now: seq<Node>, p: nat, shift: int)
    requires IsConstMultiply(was, p)
  {
    var first, s := was[p].children[0], was[p].children[1];
    var positive, private, wide := was[s].value > 0, was[s].refCount == 1, was[p].op == LMul;
    var constant := if private then s else |was|;
    var top := if positive then p else |now| - 1;
    && |now| == |was| + (if private then 0 else 1) + (if positive then 0 else 1)
    && now[top].op == (if wide then LShl else IShl) && now[top].children == [first, constant]
    && now[constant].op == IConst && now[constant].value == shift && now[constant].children == []
    && (!positive ==> now[p].op == (if wide then LNeg else INeg) && now[p].children == [top])
    && (!private ==> now[s] == was[s].(refCount := was[s].refCount - 1))
    && (forall i :: 0 <= i < |was| && i != p && i != s ==> now[i] == was[i])
  }

  lemma LoweredIsShift(nodes: seq<Node>, p: nat, shift: int)
    requires IsConstMultiply(nodes, p) && nodes[p].children[1] != p
    ensures IsShiftOf(nodes, Lowered(nodes, p, shift), p, shift)
  {
  }

  ghost predicate IsPowerAbove1(value: int) {
    exists n: nat :: n > 0 && (value == Pow2(n) || value == -(Pow2(n) as int))
  }

  lemma ShiftFits(op: Opcode, value: int, shift: int)
    requires shift > 0 ==> value == Pow2(shift) || value == -(Pow2(shift) as int)
    requires shift == 0 <==> -1 <= value <= 1
    requires shift <= 0 ==> shift == 0 || forall n: nat :: value != Pow2(n) && value != -(Pow2(n) as int)
    requires IsSigned(Width(op), value)
    ensures shift > 0 ==> shift < Width(op)
    ensures shift > 0 <==> IsPowerAbove1(value)
  {
    if shift > 0 {
      Pow2Strict(shift, Width(op));
    }
    if IsPowerAbove1(value) {
      var n: nat :| n > 0 && (value == Pow2(n) || value == -(Pow2(n) as int));
      assert Pow2(n) == 2 * Pow2(n - 1);
    }
  }
}
