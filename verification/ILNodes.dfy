/** IL expression nodes, kept in a pool and named by their index, as a shared acyclic graph.

`refCount` counts the references to a node: from tree tops and other places outside the pool (`external`)
and from the child lists of nodes that are themselves still referenced and not yet evaluated. */
module ILNodes {
  import opened Words

  datatype Opcode =
    | IMul | LMul | IShl | LShl | INeg | LNeg | IConst | LConst
    | LDiv | IDivUnsigned | IU2L
    | Other(code: nat)

  datatype Node = Node(
    op: Opcode,
    children: seq<nat>,
    value: int,
    refCount: int,
    hasRegister: bool,
    visitCount: nat,
    futureUseCount: int)

  /** Child indices are in the pool and `rank` decreases along edges, so the graph is acyclic. */
  predicate Acyclic(nodes: seq<Node>, rank: seq<nat>) {
    && |rank| == |nodes|
    && forall i, k :: 0 <= i < |nodes| && 0 <= k < |nodes[i].children| ==>
         nodes[i].children[k] < |nodes| && rank[nodes[i].children[k]] < rank[i]
  }

  // ----- values

  /** The meaning of every other operation, as a function of its operands. */
  type Meaning = (nat, seq<int>) -> int

  /** The word an operation yields; 32-bit words are in [0, 2^32), 64-bit words in [0, 2^64).  Division by
      zero, which the IL guards against, yields 0 here. */
  function Apply(n: Node, operands: seq<int>, other: Meaning): int {
    match n.op
    case IConst => Wrap(32, n.value)
    case LConst => Wrap(64, n.value)
    case IMul => if |operands| == 2 then Wrap(32, operands[0] * operands[1]) else 0
    case LMul => if |operands| == 2 then Wrap(64, operands[0] * operands[1]) else 0
    case IShl => if |operands| == 2 then Wrap(32, operands[0] * Pow2(operands[1] % 32)) else 0
    case LShl => if |operands| == 2 then Wrap(64, operands[0] * Pow2(operands[1] % 64)) else 0
    case INeg => if |operands| == 1 then Wrap(32, -operands[0]) else 0
    case LNeg => if |operands| == 1 then Wrap(64, -operands[0]) else 0
    case LDiv =>
      if |operands| == 2 && WrapSigned(64, operands[1]) != 0
      then Wrap(64, TruncDiv(WrapSigned(64, operands[0]), WrapSigned(64, operands[1]))) else 0
    case IDivUnsigned =>
      if |operands| == 2 && Wrap(32, operands[1]) != 0 then Wrap(32, operands[0]) / Wrap(32, operands[1]) else 0
    case IU2L => if |operands| == 1 then Wrap(32, operands[0]) else 0
    case Other(code) => other(code, operands)
  }

  function Eval(nodes: seq<Node>, rank: seq<nat>, i: nat, other: Meaning): int
    requires Acyclic(nodes, rank) && i < |nodes|
    decreases rank[i], 1, 0
  {
    Apply(nodes[i], EvalChildren(nodes, rank, i, |nodes[i].children|, other), other)
  }

  /** The values of the first `k` children. */
  function EvalChildren(nodes: seq<Node>, rank: seq<nat>, i: nat, k: nat, other: Meaning): (r: seq<int>)
    requires Acyclic(nodes, rank) && i < |nodes| && k <= |nodes[i].children|
    ensures |r| == k
    decreases rank[i], 0, k
  {
    if k == 0 then []
    else EvalChildren(nodes, rank, i, k - 1, other) + [Eval(nodes, rank, nodes[i].children[k - 1], other)]
  }

  lemma {:induction false} ChildAt(nodes: seq<Node>, rank: seq<nat>, i: nat, k: nat, j: nat, other: Meaning)
    requires Acyclic(nodes, rank) && i < |nodes| && j < k <= |nodes[i].children|
    ensures EvalChildren(nodes, rank, i, k, other)[j] == Eval(nodes, rank, nodes[i].children[j], other)
  {
    if j < k - 1 {
      ChildAt(nodes, rank, i, k - 1, j, other);
    }
  }

  // ----- reference counts

  /** A node whose references to its children still count. */
  predicate IsLive(n: Node) {
    n.refCount > 0 && !n.hasRegister
  }

  function EdgesOf(n: Node, i: nat): nat {
    if IsLive(n) then multiset(n.children)[i] else 0
  }

  /** References to `i` from live nodes, with multiplicity. */
  function LiveEdges(nodes: seq<Node>, i: nat): nat {
    if nodes == [] then 0 else LiveEdges(nodes[..|nodes| - 1], i) + EdgesOf(nodes[|nodes| - 1], i)
  }

  /** The child positions of referenced and unevaluated nodes that hold `i`. */
  ghost function References(nodes: seq<Node>, i: nat): set<(int, int)> {
    set j, k | 0 <= j < |nodes| && 0 <= k < |nodes[j].children|
      && nodes[j].refCount > 0 && !nodes[j].hasRegister && nodes[j].children[k] == i :: (j, k)
  }

  /** Every reference is one such position. */
  lemma {:induction false} LiveEdgesExactly(nodes: seq<Node>, i: nat)
    ensures LiveEdges(nodes, i) == |References(nodes, i)|
  {
    if nodes == [] {
      assert References(nodes, i) == {};
    } else {
      var last := |nodes| - 1;
      LiveEdgesExactly(nodes[..last], i);
      PositionsExactly(nodes[last].children, i, last, IsLive(nodes[last]));
      ReferencesLast(nodes, i);
    }
  }

  lemma ReferencesLast(nodes: seq<Node>, i: nat)
    requires nodes != []
    ensures var last := |nodes| - 1;
      var here := set k | 0 <= k < |nodes[last].children| && IsLive(nodes[last]) && nodes[last].children[k] == i :: (last, k);
      |References(nodes, i)| == |References(nodes[..last], i)| + |here|
  {
    var last := |nodes| - 1;
    var here := set k | 0 <= k < |nodes[last].children| && IsLive(nodes[last]) && nodes[last].children[k] == i :: (last, k);
    assert References(nodes, i) == References(nodes[..last], i) + here;
    assert References(nodes[..last], i) !! here;
  }

  lemma {:induction false} PositionsExactly(children: seq<nat>, i: nat, j: int, live: bool)
    ensures (if live then multiset(children)[i] else 0) == |set k | 0 <= k < |children| && live && children[k] == i :: (j, k)|
  {
    var positions := set k | 0 <= k < |children| && live && children[k] == i :: (j, k);
    if children == [] || !live {
      assert positions == {};
    } else {
      var last := |children| - 1;
      PositionsExactly(children[..last], i, j, live);
      assert children == children[..last] + [children[last]];
      assert positions == (set k | 0 <= k < last && live && children[..last][k] == i :: (j, k))
        + if children[last] == i then {(j, last)} else {};
    }
  }

  /** Every count is the number of external references plus the references from live nodes. */
  ghost predicate Counted(nodes: seq<Node>, external: seq<int>) {
    && |external| == |nodes|
    && forall i :: 0 <= i < |nodes| ==>
         external[i] >= 0 && nodes[i].refCount == external[i] + LiveEdges(nodes, i)
  }

  lemma {:induction false} LiveEdgesUpdate(nodes: seq<Node>, k: nat, n: Node, i: nat)
    requires k < |nodes|
    ensures LiveEdges(nodes[k := n], i) == LiveEdges(nodes, i) - EdgesOf(nodes[k], i) + EdgesOf(n, i)
  {
    var last := |nodes| - 1;
    if k == last {
      assert nodes[k := n][..last] == nodes[..last];
    } else {
      assert nodes[k := n][..last] == nodes[..last][k := n];
      LiveEdgesUpdate(nodes[..last], k, n, i);
    }
  }

  lemma LiveEdgesAppend(nodes: seq<Node>, n: Node, i: nat)
    ensures LiveEdges(nodes + [n], i) == LiveEdges(nodes, i) + EdgesOf(n, i)
  {
    assert (nodes + [n])[..|nodes|] == nodes;
  }

  /** Different nodes' references add up. */
  lemma LiveEdgesOfTwo(nodes: seq<Node>, k: nat, j: nat, i: nat)
    requires k < |nodes| && j < |nodes| && k != j
    ensures LiveEdges(nodes, i) >= EdgesOf(nodes[k], i) + EdgesOf(nodes[j], i)
  {
    var dead := nodes[k].(refCount := 0);
    LiveEdgesUpdate(nodes, k, dead, i);
    LiveEdgesUpdate(nodes[k := dead], j, nodes[j].(refCount := 0), i);
  }

  lemma LiveEdgesAtLeast(nodes: seq<Node>, k: nat, i: nat)
    requires k < |nodes|
    ensures LiveEdges(nodes, i) >= EdgesOf(nodes[k], i)
  {
    LiveEdgesUpdate(nodes, k, nodes[k].(refCount := 0), i);
  }

  /** The count only depends on the nodes that refer to `i`. */
  lemma {:induction false} LiveEdgesSame(a: seq<Node>, b: seq<Node>, i: nat)
    requires |a| == |b|
    requires forall j :: 0 <= j < |a| ==> EdgesOf(a[j], i) == EdgesOf(b[j], i)
    ensures LiveEdges(a, i) == LiveEdges(b, i)
  {
    if a != [] {
      LiveEdgesSame(a[..|a| - 1], b[..|b| - 1], i);
    }
  }

  lemma {:induction false} NoEdges(nodes: seq<Node>, i: nat)
    requires forall j :: 0 <= j < |nodes| ==> i !in nodes[j].children
    ensures LiveEdges(nodes, i) == 0
  {
    if nodes != [] {
      NoEdges(nodes[..|nodes| - 1], i);
    }
  }

  /** Children of live nodes are referenced. */
  lemma ChildIsReferenced(nodes: seq<Node>, external: seq<int>, i: nat, k: nat)
    requires Counted(nodes, external) && i < |nodes| && IsLive(nodes[i])
    requires k < |nodes[i].children| && nodes[i].children[k] < |nodes|
    ensures nodes[nodes[i].children[k]].refCount > 0
  {
    LiveEdgesAtLeast(nodes, i, nodes[i].children[k]);
  }

  /** The counts are determined by the external references: an acyclic graph has exactly one right
      assignment, so any procedure that keeps them right computes the same one. */
  lemma {:induction false} CountsUnique(a: seq<Node>, b: seq<Node>, rank: seq<nat>, external: seq<int>, top: nat, i: nat)
    requires Acyclic(a, rank) && Counted(a, external) && Counted(b, external) && i < |a|
    requires forall j :: 0 <= j < |a| ==> a[j].children == b[j].children && a[j].hasRegister == b[j].hasRegister && rank[j] <= top
    ensures a[i].refCount == b[i].refCount
    decreases top - rank[i]
  {
    forall j | 0 <= j < |a|
      ensures EdgesOf(a[j], i) == EdgesOf(b[j], i)
    {
      if i in a[j].children {
        CountsUnique(a, b, rank, external, top, j);
      }
    }
    LiveEdgesSame(a, b, i);
  }

  /** The node pool of a compilation. */
  class NodePool {
    var nodes: seq<Node>

    constructor (nodes: seq<Node>)
      ensures this.nodes == nodes
    {
      this.nodes := nodes;
    }
  }
}
