/** Narrowing a 64-bit division of two zero-extended 32-bit values to an unsigned 32-bit division. */
module DivideNarrowing {
  import opened Words
  import opened ILNodes
  import opened MultiplyLowering
  import opened ReferenceCounting

  /** A division whose operands both have an all-zero high word. */
  predicate IsWideDivide(nodes: seq<Node>, p: nat) {
    p < |nodes| && nodes[p].op == LDiv && |nodes[p].children| == 2
    && forall k :: 0 <= k < 2 ==>
         var c := nodes[p].children[k];
         c < |nodes| && nodes[c].op == IU2L && |nodes[c].children| == 1 && nodes[c].children[0] < |nodes|
  }

  /** One more reference to each of two nodes. */
  function Referenced(nodes: seq<Node>, x: nat, y: nat): seq<Node>
    requires x < |nodes| && y < |nodes|
  {
    var two := nodes[x := nodes[x].(refCount := nodes[x].refCount + 1)];
    two[y := two[y].(refCount := two[y].refCount + 1)]
  }

  /** The pool once the narrow division has taken the place of the wide one, whose references to its
      operands are still to be dropped. */
  function Narrowed(nodes: seq<Node>, p: nat): seq<Node>
    requires IsWideDivide(nodes, p)
  {
    var n, x, y := |nodes|, nodes[nodes[p].children[0]].children[0], nodes[nodes[p].children[1]].children[0];
    var three := Referenced(nodes + [NewNode(IDivUnsigned, [x, y], 0, 0)], x, y);
    three[p := three[p].(op := IU2L, children := [n])]
  }

  function NarrowedRank(rank: seq<nat>, p: nat): seq<nat>
    requires p < |rank| && rank[p] >= 1
  {
    seq(|rank|, i requires 0 <= i < |rank| => 2 * rank[i]) + [2 * rank[p] - 1]
  }

  function Indices(n: nat): (s: set<nat>)
    ensures forall i: nat :: i in s <==> i < n
  {
    if n == 0 then {} else Indices(n - 1) + {n - 1}
  }

  lemma DivideAbove(nodes: seq<Node>, rank: seq<nat>, p: nat)
    requires IsWideDivide(nodes, p) && Acyclic(nodes, rank)
    ensures rank[nodes[nodes[p].children[0]].children[0]] < rank[nodes[p].children[0]] < rank[p]
    ensures rank[nodes[nodes[p].children[1]].children[0]] < rank[nodes[p].children[1]] < rank[p]
  {
    var f, s := nodes[p].children[0], nodes[p].children[1];
    assert rank[nodes[f].children[0]] < rank[f] && rank[nodes[s].children[0]] < rank[s];
  }

  lemma NarrowedAcyclic(nodes: seq<Node>, rank: seq<nat>, p: nat)
    requires IsWideDivide(nodes, p) && Acyclic(nodes, rank)
    ensures rank[p] >= 1 && Acyclic(Narrowed(nodes, p), NarrowedRank(rank, p))
  {
    DivideAbove(nodes, rank, p);
  }

  /** The two divisions agree on every pair of operands. */
  lemma DivisionsAgree(x: int, y: int)
    ensures Wrap(64, Wrap(32, x)) == Wrap(32, x)
    ensures var a, b := Wrap(32, x), Wrap(32, y);
      (if WrapSigned(64, b) != 0 then Wrap(64, TruncDiv(WrapSigned(64, a), WrapSigned(64, b))) else 0)
        == Wrap(32, if b != 0 then a / b else 0)
  {
    var a, b := Wrap(32, x), Wrap(32, y);
    Pow2Values();
    WrapSignedId(64, a);
    WrapSignedId(64, b);
    DivModUnique(a, Pow2(64), 0, a);
    if b != 0 {
      MulAtMost(1, b, a / b + 1);
      QuotientInRange(a, b);
      DivModUnique(a / b, Pow2(64), 0, a / b);
      DivModUnique(a / b, Pow2(32), 0, a / b);
    } else {
      DivModUnique(0, Pow2(32), 0, 0);
    }
  }

  /** The quotient of the low words. */
  function LowQuotient(x: int, y: int): int {
    Wrap(32, if Wrap(32, y) != 0 then Wrap(32, x) / Wrap(32, y) else 0)
  }

  lemma QuotientInRange(a: int, b: int)
    requires 0 <= a && 0 < b
    ensures 0 <= a / b <= a
  {
    assert a == (a / b) * b + a % b;
    CancelFactor(-1, a / b, b);
    MulAtMost(1, b, a / b);
    assert b * (a / b) == (a / b) * b;
  }

  lemma WideValue(nodes: seq<Node>, rank: seq<nat>, p: nat, other: Meaning)
    requires IsWideDivide(nodes, p) && Acyclic(nodes, rank)
    ensures Eval(nodes, rank, p, other) == LowQuotient(
      Eval(nodes, rank, nodes[nodes[p].children[0]].children[0], other),
      Eval(nodes, rank, nodes[nodes[p].children[1]].children[0], other))
  {
    PairValues(nodes, rank, p, other);
    SingleValue(nodes, rank, nodes[p].children[0], other);
    SingleValue(nodes, rank, nodes[p].children[1], other);
    DivisionsAgree(Eval(nodes, rank, nodes[nodes[p].children[0]].children[0], other),
      Eval(nodes, rank, nodes[nodes[p].children[1]].children[0], other));
  }

  lemma NarrowValue(nodes: seq<Node>, rank: seq<nat>, p: nat, n: nat, other: Meaning)
    requires Acyclic(nodes, rank) && p < |nodes| && nodes[p].op == IU2L && nodes[p].children == [n]
    requires n < |nodes| && nodes[n].op == IDivUnsigned && |nodes[n].children| == 2
    ensures nodes[n].children[0] < |nodes| && nodes[n].children[1] < |nodes|
    ensures Eval(nodes, rank, p, other) == LowQuotient(
      Eval(nodes, rank, nodes[n].children[0], other), Eval(nodes, rank, nodes[n].children[1], other))
  {
    SingleValue(nodes, rank, p, other);
    PairValues(nodes, rank, n, other);
  }

  lemma OthersKept(nodes: seq<Node>, p: nat)
    requires IsWideDivide(nodes, p)
    ensures |Narrowed(nodes, p)| == |nodes| + 1
    ensures forall j :: 0 <= j < |nodes| && j != p ==>
      var node := Narrowed(nodes, p)[j];
      node.op == nodes[j].op && node.value == nodes[j].value && node.children == nodes[j].children
  {
  }

  /** Nothing below the division is touched but reference counts. */
  lemma OperandsKept(nodes: seq<Node>, rank: seq<nat>, p: nat, other: Meaning)
    requires IsWideDivide(nodes, p) && Acyclic(nodes, rank) && rank[p] >= 1
    requires Acyclic(Narrowed(nodes, p), NarrowedRank(rank, p))
    ensures var after, rank' := Narrowed(nodes, p), NarrowedRank(rank, p);
      var x, y := nodes[nodes[p].children[0]].children[0], nodes[nodes[p].children[1]].children[0];
      after[|nodes|].children == [x, y] && Eval(after, rank', x, other) == Eval(nodes, rank, x, other)
      && Eval(after, rank', y, other) == Eval(nodes, rank, y, other)
  {
    DivideAbove(nodes, rank, p);
    var after, rank' := Narrowed(nodes, p), NarrowedRank(rank, p);
    var below := set j: nat | j < |nodes| && rank[j] < rank[p];
    OthersKept(nodes, p);
    assert after[|nodes|].children == [nodes[nodes[p].children[0]].children[0], nodes[nodes[p].children[1]].children[0]];
    hide Eval, Narrowed, NarrowedRank;
    EvalKept(nodes, rank, after, rank', below, p, nodes[nodes[p].children[0]].children[0], other);
    EvalKept(nodes, rank, after, rank', below, p, nodes[nodes[p].children[1]].children[0], other);
  }

  lemma DivideKept(nodes: seq<Node>, rank: seq<nat>, p: nat, other: Meaning)
    requires IsWideDivide(nodes, p) && Acyclic(nodes, rank) && rank[p] >= 1
    requires Acyclic(Narrowed(nodes, p), NarrowedRank(rank, p))
    ensures Eval(Narrowed(nodes, p), NarrowedRank(rank, p), p, other) == Eval(nodes, rank, p, other)
  {
    OperandsKept(nodes, rank, p, other);
    WideValue(nodes, rank, p, other);
    NarrowValue(Narrowed(nodes, p), NarrowedRank(rank, p), p, |nodes|, other);
    hide Eval, NarrowedRank, LowQuotient;
  }

  /** Every old node keeps its value. */
  lemma NarrowedKeepsValues(nodes: seq<Node>, rank: seq<nat>, p: nat, i: nat, other: Meaning)
    requires IsWideDivide(nodes, p) && Acyclic(nodes, rank) && i < |nodes|
    ensures rank[p] >= 1 && Acyclic(Narrowed(nodes, p), NarrowedRank(rank, p))
    ensures Eval(Narrowed(nodes, p), NarrowedRank(rank, p), i, other) == Eval(nodes, rank, i, other)
  {
    NarrowedAcyclic(nodes, rank, p);
    var after, rank' := Narrowed(nodes, p), NarrowedRank(rank, p);
    DivideKept(nodes, rank, p, other);
    OthersKept(nodes, p);
    hide Eval, Narrowed, NarrowedRank, IsWideDivide;
    EvalKept(nodes, rank, after, rank', Indices(|nodes|), p, i, other);
  }

  // ----- reference counts

  /** Two pending references are paid off one after the other. */
  lemma FirstPaid(external: seq<int>, f: nat, s: nat)
    requires f < |external| && s < |external| && external[f] >= 0 && external[s] >= 0
    ensures Pending(external, [f, s])[f] >= 1 && Pending(external, [s])[s] >= 1
    ensures Owed(Pending(external, [f, s]), f, -1) == Pending(external, [s])
    ensures Owed(Pending(external, [s]), s, -1) == external
  {
    PairCounts(f, s);
    assert forall i: nat :: multiset([s])[i] == if i == s then 1 else 0;
  }

  lemma PairCounts(x: nat, y: nat)
    ensures forall i: nat :: multiset([x, y])[i] == (if i == x then 1 else 0) + (if i == y then 1 else 0)
  {
    forall i: nat
      ensures multiset([x, y])[i] == (if i == x then 1 else 0) + (if i == y then 1 else 0)
    {
      PairCount(x, y, i);
    }
  }

  /** A further reference to a node does not change the references it holds. */
  lemma CountedAgain(nodes: seq<Node>, x: nat, i: nat)
    requires x < |nodes| && nodes[x].refCount > 0
    ensures LiveEdges(nodes[x := nodes[x].(refCount := nodes[x].refCount + 1)], i) == LiveEdges(nodes, i)
  {
    LiveEdgesUpdate(nodes, x, nodes[x].(refCount := nodes[x].refCount + 1), i);
  }

  /** How one count changes while the references to the old operands are still held. */
  lemma NarrowedEdges(nodes: seq<Node>, rank: seq<nat>, p: nat, i: nat)
    requires IsWideDivide(nodes, p) && Acyclic(nodes, rank) && IsLive(nodes[p])
    requires forall j :: 0 <= j < |nodes| ==> !nodes[j].hasRegister
    requires nodes[nodes[nodes[p].children[0]].children[0]].refCount > 0
    requires nodes[nodes[nodes[p].children[1]].children[0]].refCount > 0
    ensures var n, f, s := |nodes|, nodes[p].children[0], nodes[p].children[1];
      LiveEdges(Narrowed(nodes, p), i) == LiveEdges(nodes, i)
        - (if i == f then 1 else 0) - (if i == s then 1 else 0)
        + (if i == nodes[f].children[0] then 1 else 0) + (if i == nodes[s].children[0] then 1 else 0) + (if i == n then 1 else 0)
  {
    var n, f, s := |nodes|, nodes[p].children[0], nodes[p].children[1];
    var x, y := nodes[f].children[0], nodes[s].children[0];
    var narrow := NewNode(IDivUnsigned, [x, y], 0, 0);
    var three, wide := Referenced(nodes + [narrow], x, y), nodes[p].(op := IU2L, children := [n]);
    NarrowedFrom(nodes, rank, p);
    PairEdges(nodes[p], f, s, i);
    PairEdges(narrow, x, y, i);
    assert EdgesOf(wide, i) == if i == n then 1 else 0;
    hide Narrowed, Referenced, LiveEdges, EdgesOf, Acyclic;
    ReferencedEdges(nodes, narrow, x, y, i);
    LiveEdgesUpdate(three, p, wide, i);
  }

  lemma NarrowedFrom(nodes: seq<Node>, rank: seq<nat>, p: nat)
    requires IsWideDivide(nodes, p) && Acyclic(nodes, rank)
    ensures var x, y := nodes[nodes[p].children[0]].children[0], nodes[nodes[p].children[1]].children[0];
      var three := Referenced(nodes + [NewNode(IDivUnsigned, [x, y], 0, 0)], x, y);
      |three| == |nodes| + 1 && three[p] == nodes[p]
      && Narrowed(nodes, p) == three[p := nodes[p].(op := IU2L, children := [|nodes|])]
  {
    DivideAbove(nodes, rank, p);
  }

  lemma PairEdges(node: Node, x: nat, y: nat, i: nat)
    requires IsLive(node) && |node.children| == 2 && node.children[0] == x && node.children[1] == y
    ensures EdgesOf(node, i) == (if i == x then 1 else 0) + (if i == y then 1 else 0)
  {
    assert node.children == [x, y];
    PairCount(x, y, i);
  }

  lemma ReferencedEdges(nodes: seq<Node>, narrow: Node, x: nat, y: nat, i: nat)
    requires x < |nodes| && y < |nodes| && nodes[x].refCount > 0 && nodes[y].refCount > 0
    ensures LiveEdges(Referenced(nodes + [narrow], x, y), i) == LiveEdges(nodes, i) + EdgesOf(narrow, i)
  {
    var one := nodes + [narrow];
    LiveEdgesAppend(nodes, narrow, i);
    CountedAgain(one, x, i);
    CountedAgain(one[x := one[x].(refCount := one[x].refCount + 1)], y, i);
  }

  lemma NarrowedCounted(nodes: seq<Node>, rank: seq<nat>, external: seq<int>, p: nat)
    requires IsWideDivide(nodes, p) && Acyclic(nodes, rank) && Counted(nodes, external) && IsLive(nodes[p])
    requires forall j :: 0 <= j < |nodes| ==> !nodes[j].hasRegister
    ensures Counted(Narrowed(nodes, p), Pending(external + [0], nodes[p].children))
  {
    var f, s := nodes[p].children[0], nodes[p].children[1];
    ChildIsReferenced(nodes, external, p, 0);
    ChildIsReferenced(nodes, external, p, 1);
    ChildIsReferenced(nodes, external, f, 0);
    ChildIsReferenced(nodes, external, s, 0);
    forall i | 0 <= i < |nodes| + 1
      ensures Narrowed(nodes, p)[i].refCount == Pending(external + [0], nodes[p].children)[i] + LiveEdges(Narrowed(nodes, p), i)
    {
      NarrowedCount(nodes, rank, external, p, i);
    }
  }

  lemma NarrowedCount(nodes: seq<Node>, rank: seq<nat>, external: seq<int>, p: nat, i: nat)
    requires IsWideDivide(nodes, p) && Acyclic(nodes, rank) && Counted(nodes, external) && IsLive(nodes[p])
    requires forall j :: 0 <= j < |nodes| ==> !nodes[j].hasRegister
    requires nodes[nodes[nodes[p].children[0]].children[0]].refCount > 0
    requires nodes[nodes[nodes[p].children[1]].children[0]].refCount > 0
    requires i <= |nodes|
    ensures Narrowed(nodes, p)[i].refCount == Pending(external + [0], nodes[p].children)[i] + LiveEdges(Narrowed(nodes, p), i)
  {
    var f, s := nodes[p].children[0], nodes[p].children[1];
    assert nodes[p].children == [f, s] && Narrowed(nodes, p)[i].refCount == NarrowedRefCount(nodes, p, i);
    NarrowedEdges(nodes, rank, p, i);
    PairCount(f, s, i);
    if i == |nodes| {
      NewIsUnreferenced(nodes, rank);
    }
    hide LiveEdges, Acyclic, Narrowed;
  }

  function NarrowedRefCount(nodes: seq<Node>, p: nat, i: nat): int
    requires IsWideDivide(nodes, p) && i <= |nodes|
  {
    var x, y := nodes[nodes[p].children[0]].children[0], nodes[nodes[p].children[1]].children[0];
    if i == |nodes| then 1
    else nodes[i].refCount + (if i == x then 1 else 0) + (if i == y then 1 else 0)
  }

  lemma NewIsUnreferenced(nodes: seq<Node>, rank: seq<nat>)
    requires Acyclic(nodes, rank)
    ensures LiveEdges(nodes, |nodes|) == 0
  {
    NoEdges(nodes, |nodes|);
  }

  /** Narrow a division.  The operands' conversions lose a reference each and may go away. */
  method NarrowDivide(pool: NodePool, p: nat, consent: bool, ghost rank: seq<nat>, ghost external: seq<int>)
    requires IsWideDivide(pool.nodes, p) && Acyclic(pool.nodes, rank) && Counted(pool.nodes, external)
    requires IsLive(pool.nodes[p]) && forall j :: 0 <= j < |pool.nodes| ==> !pool.nodes[j].hasRegister
    modifies pool
    ensures !consent ==> pool.nodes == old(pool.nodes)
    ensures consent ==> CountsShrunk(Narrowed(old(pool.nodes), p), pool.nodes) && Counted(pool.nodes, external + [0])
    ensures consent ==>
      var was, n := old(pool.nodes), |old(pool.nodes)|;
      && |pool.nodes| == n + 1 && pool.nodes[p].op == IU2L && pool.nodes[p].children == [n]
      && pool.nodes[n].op == IDivUnsigned
      && pool.nodes[n].children == [was[was[p].children[0]].children[0], was[was[p].children[1]].children[0]]
      && forall i :: 0 <= i < n && i != p ==> pool.nodes[i] == was[i].(refCount := pool.nodes[i].refCount)
    ensures consent ==> rank[p] >= 1 && Acyclic(pool.nodes, NarrowedRank(rank, p))
    ensures consent ==> forall i: nat, other :: i < |old(pool.nodes)| ==>
      Eval(pool.nodes, NarrowedRank(rank, p), i, other) == Eval(old(pool.nodes), rank, i, other)
  {
    if consent {
      ghost var before := pool.nodes;
      var f, s := pool.nodes[p].children[0], pool.nodes[p].children[1];
      assert before[p].children == [f, s];
      NarrowedAcyclic(before, rank, p);
      NarrowedCounted(before, rank, external, p);
      assert forall i :: 0 <= i < |before| ==> external[i] >= 0;
      hide Acyclic, Counted, CountsShrunk, Pending, Narrowed, Eval;
      InstallNarrow(pool, p);
      ReleasePair(pool, f, s, NarrowedRank(rank, p), external + [0]);
      ReleasedKeepsValues(before, rank, p, pool.nodes);
      ReleasedShape(before, rank, p, pool.nodes);
    }
  }

  /** Give up the references the wide division held. */
  method ReleasePair(pool: NodePool, f: nat, s: nat, ghost rank: seq<nat>, ghost external: seq<int>)
    requires Acyclic(pool.nodes, rank) && f < |pool.nodes| && s < |pool.nodes|
    requires |external| == |pool.nodes| && forall i :: 0 <= i < |external| ==> external[i] >= 0
    requires Counted(pool.nodes, Pending(external, [f, s]))
    modifies pool
    ensures Counted(pool.nodes, external) && CountsShrunk(old(pool.nodes), pool.nodes)
  {
    ghost var narrowed := pool.nodes;
    FirstPaid(external, f, s);
    hide Acyclic, Counted, CountsShrunk, Pending, Owed;
    RecursivelyDecReferenceCount(pool, f, rank, Pending(external, [f, s]));
    ghost var half := pool.nodes;
    AcyclicKept(narrowed, half, rank);
    SameLength(narrowed, half);
    RecursivelyDecReferenceCount(pool, s, rank, Pending(external, [s]));
    ShrunkTwice(narrowed, half, pool.nodes);
  }

  lemma SameLength(before: seq<Node>, after: seq<Node>)
    requires CountsShrunk(before, after)
    ensures |before| == |after|
  {
  }

  /** The division is narrow now, and nothing else is different but reference counts. */
  lemma ReleasedShape(before: seq<Node>, rank: seq<nat>, p: nat, after: seq<Node>)
    requires IsWideDivide(before, p) && Acyclic(before, rank) && CountsShrunk(Narrowed(before, p), after)
    ensures var n := |before|;
      && |after| == n + 1 && after[p].op == IU2L && after[p].children == [n] && after[n].op == IDivUnsigned
      && after[n].children == [before[before[p].children[0]].children[0], before[before[p].children[1]].children[0]]
      && forall i :: 0 <= i < n && i != p ==> after[i] == before[i].(refCount := after[i].refCount)
  {
    DivideAbove(before, rank, p);
  }

  lemma ReleasedKeepsValues(before: seq<Node>, rank: seq<nat>, p: nat, after: seq<Node>)
    requires IsWideDivide(before, p) && Acyclic(before, rank) && CountsShrunk(Narrowed(before, p), after)
    ensures rank[p] >= 1 && Acyclic(after, NarrowedRank(rank, p)) && |after| == |before| + 1
    ensures forall i: nat, other :: i < |before| ==>
      Eval(after, NarrowedRank(rank, p), i, other) == Eval(before, rank, i, other)
  {
    NarrowedAcyclic(before, rank, p);
    var narrowed, rank' := Narrowed(before, p), NarrowedRank(rank, p);
    AcyclicKept(narrowed, after, rank');
    SameLength(narrowed, after);
    assert |narrowed| == |before| + 1;
    hide Acyclic, CountsShrunk, Narrowed, NarrowedRank, Eval, IsWideDivide;
    forall i: nat, other | i < |before|
      ensures Eval(after, rank', i, other) == Eval(before, rank, i, other)
    {
      NarrowedKeepsValues(before, rank, p, i, other);
      ShrunkKeepsValues(narrowed, after, rank', i, other);
    }
  }

  /** Create the narrow division, which takes references to its operands, and turn the wide one into a
      conversion of it. */
  method InstallNarrow(pool: NodePool, p: nat)
    requires IsWideDivide(pool.nodes, p)
    modifies pool
    ensures pool.nodes == Narrowed(old(pool.nodes), p)
  {
    var n := |pool.nodes|;
    var x, y := pool.nodes[pool.nodes[p].children[0]].children[0], pool.nodes[pool.nodes[p].children[1]].children[0];
    pool.nodes := pool.nodes + [Node(IDivUnsigned, [x, y], 0, 0, false, 0, 0)];
    pool.nodes := pool.nodes[x := pool.nodes[x].(refCount := pool.nodes[x].refCount + 1)];
    pool.nodes := pool.nodes[y := pool.nodes[y].(refCount := pool.nodes[y].refCount + 1)];
    pool.nodes := pool.nodes[p := pool.nodes[p].(op := IU2L)];
    pool.nodes := pool.nodes[p := pool.nodes[p].(children := [n])];
    pool.nodes := pool.nodes[n := pool.nodes[n].(refCount := pool.nodes[n].refCount + 1)];
  }
}
