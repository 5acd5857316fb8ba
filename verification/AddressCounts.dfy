/** Before evaluation, honest reference counts keep the loads the address check relies on apart. */
module AddressCounts {
  import opened AddressMatch
  import opened AddressTrust

  predicate ChildOf(m: Node, p: Node) {
    || (p.IntToAddress? && p.child == m)
    || (p.Indirect? && p.base == m)
    || (p.Add? && (p.first == m || p.second == m))
  }

  predicate IsLoad(n: Node) {
    n.Direct? || n.Indirect?
  }

  /** A load referenced at most once has at most one parent; a root is held by something outside. */
  ghost predicate HonestCounts(a: Node, b: Node) {
    var nodes := Nodes(a) + Nodes(b);
    && (forall m, p, q :: m in nodes && p in nodes && q in nodes && IsLoad(m) && m.refCount <= 1 && ChildOf(m, p) && ChildOf(m, q)
          ==> p == q)
    && (forall m, p :: (m == a || m == b) && p in nodes && IsLoad(m) && m.refCount <= 1 ==> !ChildOf(m, p))
  }

  /** Two chains walked down together: fresh and different loads, and then nothing to rely on. */
  predicate Lockstep(x: Node, y: Node, depth: nat) {
    if depth == 0 then IsLoad(x) || IsLoad(y) ==> x == y
    else
      && x != y && IsLoad(x) && IsLoad(y) && x.refCount <= 1 && y.refCount <= 1
      && x.Indirect? == y.Indirect? && (x.Indirect? ==> Lockstep(x.base, y.base, depth - 1))
  }

  lemma {:induction false} LockstepSym(x: Node, y: Node, depth: nat)
    requires Lockstep(x, y, depth)
    ensures Lockstep(y, x, depth)
  {
    if depth > 0 && x.Indirect? {
      LockstepSym(x.base, y.base, depth - 1);
    }
  }

  /** The whole tree, or an operand of an addition in it. */
  ghost predicate Placed(n: Node, root: Node) {
    n in Nodes(root) && (n == root || exists p :: p in Nodes(root) && p.Add? && ChildOf(n, p))
  }

  ghost predicate InPlace(leaves: seq<Leaf>, a: Node, b: Node) {
    forall i :: 0 <= i < |leaves| ==>
      Lockstep(leaves[i].left, leaves[i].right, leaves[i].depth) && Placed(leaves[i].left, a) && Placed(leaves[i].right, b)
  }

  lemma {:induction false} NodeLockstep(a: Node, b: Node)
    requires NodeMatches(a, b, true, false)
    ensures Lockstep(a, b, Depth(a, b, false))
  {
    if a != b && a.Indirect? {
      NodeLockstep(a.base, b.base);
    }
  }

  lemma IndirectionLockstep(a: Node, b: Node)
    requires IndirectionsMatch(a, b, false) && a != b
    ensures Lockstep(a, b, 1)
  {
    assert AddressesMatch(a.base, b.base, false, false);
    if IsLoad(a.base) || IsLoad(b.base) {
      assert NodeMatches(a.base, b.base, false, false);
    }
  }

  lemma NodeInPlace(a: Node, b: Node)
    requires NodeMatches(a, b, true, false)
    ensures InPlace([NodeLeaf(a, b, false)], a, b)
  {
    NodeLockstep(a, b);
  }

  lemma PlacedBelow(n: Node, child: Node, root: Node)
    requires root.Add? && (child == root.first || child == root.second) && Placed(n, child)
    ensures Placed(n, root)
  {
    if n == child {
      assert ChildOf(n, root) && root in Nodes(root);
    } else {
      var p :| p in Nodes(child) && p.Add? && ChildOf(n, p);
      assert p in Nodes(root);
    }
  }

  lemma InPlaceSum(a: Node, b: Node, l: seq<Leaf>, m: seq<Leaf>)
    requires a.Add? && b.Add? && InPlace(l, a.first, b.first) && InPlace(m, a.second, b.second)
    ensures InPlace(l + m, a, b)
  {
    hide Placed, Lockstep;
    forall i | 0 <= i < |l + m|
      ensures var leaf := (l + m)[i]; Lockstep(leaf.left, leaf.right, leaf.depth) && Placed(leaf.left, a) && Placed(leaf.right, b)
    {
      if i < |l| {
        PlacedBelow(l[i].left, a.first, a);
        PlacedBelow(l[i].right, b.first, b);
      } else {
        PlacedBelow(m[i - |l|].left, a.second, a);
        PlacedBelow(m[i - |l|].right, b.second, b);
      }
    }
  }

  lemma {:induction false} AdditionsInPlace(a: Node, b: Node)
    requires a.Add? && b.Add? && AdditionsMatch(a, b, true, false)
    ensures InPlace(AdditionLeaves(a, b, false), a, b)
  {
    hide InPlace;
    if NodeMatches(a.first, b.first, true, false) {
      NodeInPlace(a.first, b.first);
      var l := [NodeLeaf(a.first, b.first, false)];
      if NodeMatches(a.second, b.second, true, false) {
        NodeInPlace(a.second, b.second);
        InPlaceSum(a, b, l, [NodeLeaf(a.second, b.second, false)]);
      } else {
        AdditionsInPlace(a.second, b.second);
        InPlaceSum(a, b, l, AdditionLeaves(a.second, b.second, false));
      }
    } else if NodeMatches(a.second, b.second, true, false)
        && IsSupportedAdd(a.first) && IsSupportedAdd(b.first) && AdditionsMatch(a.first, b.first, true, false) {
      AdditionsInPlace(a.first, b.first);
      NodeInPlace(a.second, b.second);
      InPlaceSum(a, b, AdditionLeaves(a.first, b.first, false), [NodeLeaf(a.second, b.second, false)]);
    } else {
      NothingInPlace(a, b);
    }
  }

  lemma NothingInPlace(a: Node, b: Node)
    ensures InPlace([], a, b)
  {
  }

  lemma LeavesInPlace(a: Node, b: Node)
    requires AddressesMatch(a, b, true, false)
    ensures InPlace(Leaves(a, b, false), a, b)
  {
    if NodeMatches(a, b, true, false) {
      NodeInPlace(a, b);
    } else if IsSupportedAdd(a) && IsSupportedAdd(b) && AdditionsMatch(a, b, true, false) {
      AdditionsInPlace(a, b);
    } else if IsSupportedAdd(a) && IsSupportedAdd(b) && ChildrenMatch(a, b, true, false) {
      AdditionsInPlace(a.first, b.first);
      AdditionsInPlace(a.second, b.second);
      InPlaceSum(a, b, AdditionLeaves(a.first, b.first, false), AdditionLeaves(a.second, b.second, false));
    } else if IsSupportedAdd(a) && IsSupportedAdd(b) && NodeMatches(a.second, b.second, true, false) {
      IndirectionLockstep(a.first, b.first);
      NodeInPlace(a.second, b.second);
      var first, second := [Leaf(a.first, b.first, 1)], [NodeLeaf(a.second, b.second, false)];
      assert InPlace(first, a.first, b.first);
      InPlaceSum(a, b, first, second);
      assert first + second == [first[0], second[0]];
    } else {
      IndirectionLockstep(a, b);
    }
  }

  // ----- a load on two chains has the same loads above it

  predicate Reaches(n: Node, level: nat) {
    level > 0 ==> n.Indirect? && Reaches(n.base, level - 1)
  }

  /** The node so many loads down. */
  function Level(n: Node, level: nat): Node
    requires Reaches(n, level)
  {
    if level == 0 then n else Level(n.base, level - 1)
  }

  lemma {:induction false} LevelAbove(n: Node, level: nat)
    requires Reaches(n, level + 1)
    ensures Reaches(n, level) && Level(n, level).Indirect? && Level(n, level).base == Level(n, level + 1)
  {
    if level > 0 {
      LevelAbove(n.base, level - 1);
    }
  }

  lemma {:induction false} LevelWithin(n: Node, level: nat)
    requires Reaches(n, level)
    ensures Level(n, level) in Nodes(n)
  {
    if level > 0 {
      LevelWithin(n.base, level - 1);
    }
  }

  lemma {:induction false} LevelOf(i: Node, n: Node, depth: nat) returns (level: nat)
    requires OnSide(i, n, depth)
    ensures level < depth && Reaches(n, level) && Level(n, level) == i
  {
    if n == i {
      level := 0;
    } else {
      level := LevelOf(i, n.base, depth - 1);
      level := level + 1;
    }
  }

  /** All the loads of the chain are fresh. */
  predicate FreshChain(n: Node, depth: nat) {
    depth > 0 ==> IsLoad(n) && n.refCount <= 1 && (n.Indirect? ==> FreshChain(n.base, depth - 1))
  }

  lemma {:induction false} LevelFresh(n: Node, depth: nat, level: nat)
    requires FreshChain(n, depth) && Reaches(n, level) && level < depth
    ensures IsLoad(Level(n, level)) && Level(n, level).refCount <= 1
  {
    if level > 0 {
      LevelFresh(n.base, depth - 1, level - 1);
    }
  }

  lemma {:induction false} LockstepFresh(x: Node, y: Node, depth: nat)
    requires Lockstep(x, y, depth)
    ensures FreshChain(x, depth) && FreshChain(y, depth)
  {
    if depth > 0 && x.Indirect? {
      LockstepFresh(x.base, y.base, depth - 1);
    }
  }

  lemma OneParent(a: Node, b: Node, m: Node, p: Node, q: Node)
    requires HonestCounts(a, b) && IsLoad(m) && m.refCount <= 1 && ChildOf(m, p) && ChildOf(m, q)
    requires m in Nodes(a) + Nodes(b) && p in Nodes(a) + Nodes(b) && q in Nodes(a) + Nodes(b)
    ensures p == q && m != a && m != b
  {
  }

  /** Parents are unique, so the shorter way up ends on the longer. */
  lemma {:induction false} Upward(a: Node, b: Node, n: Node, d: nat, p: nat, m: Node, e: nat, q: nat)
    requires HonestCounts(a, b) && n in Nodes(a) + Nodes(b) && m in Nodes(a) + Nodes(b)
    requires Nodes(n) <= Nodes(a) + Nodes(b) && Nodes(m) <= Nodes(a) + Nodes(b)
    requires FreshChain(n, d) && FreshChain(m, e) && p < d && q < e && p <= q
    requires Reaches(n, p) && Reaches(m, q) && Level(n, p) == Level(m, q)
    ensures Reaches(m, q - p) && Level(m, q - p) == n
    decreases p
  {
    hide HonestCounts, Nodes, FreshChain;
    if p > 0 {
      LevelAbove(n, p - 1);
      LevelAbove(m, q - 1);
      LevelWithin(n, p - 1);
      LevelWithin(m, q - 1);
      LevelWithin(n, p);
      LevelFresh(n, d, p);
      OneParent(a, b, Level(n, p), Level(n, p - 1), Level(m, q - 1));
      Upward(a, b, n, d, p - 1, m, e, q - 1);
    }
  }

  /** What stands in place is below no load of a chain. */
  lemma NotBelow(a: Node, b: Node, n: Node, m: Node, level: nat)
    requires HonestCounts(a, b) && (Placed(n, a) || Placed(n, b)) && IsLoad(n) && n.refCount <= 1
    requires Nodes(m) <= Nodes(a) + Nodes(b) && Reaches(m, level) && Level(m, level) == n
    ensures level == 0
  {
    if level > 0 {
      LevelAbove(m, level - 1);
      LevelWithin(m, level - 1);
      var q := Level(m, level - 1);
      OneParent(a, b, n, q, q);
      var p :| p in Nodes(a) + Nodes(b) && p.Add? && ChildOf(n, p);
      OneParent(a, b, n, p, q);
      assert false;
    }
  }

  /** Both chains start with the same load. */
  lemma SameTop(a: Node, b: Node, n: Node, d: nat, m: Node, e: nat, i: Node)
    requires HonestCounts(a, b) && (Placed(n, a) || Placed(n, b)) && (Placed(m, a) || Placed(m, b))
    requires FreshChain(n, d) && FreshChain(m, e) && OnSide(i, n, d) && OnSide(i, m, e)
    ensures n == m
  {
    NodesBelow(if n in Nodes(a) then a else b, n);
    NodesBelow(if m in Nodes(a) then a else b, m);
    hide HonestCounts, Nodes, Placed, FreshChain, OnSide, Reaches, Level;
    var p := LevelOf(i, n, d);
    var q := LevelOf(i, m, e);
    if p <= q {
      TopOnChain(a, b, n, d, p, m, e, q);
    } else {
      TopOnChain(a, b, m, e, q, n, d, p);
    }
  }

  lemma TopOnChain(a: Node, b: Node, n: Node, d: nat, p: nat, m: Node, e: nat, q: nat)
    requires HonestCounts(a, b) && (Placed(n, a) || Placed(n, b)) && m in Nodes(a) + Nodes(b)
    requires Nodes(n) <= Nodes(a) + Nodes(b) && Nodes(m) <= Nodes(a) + Nodes(b)
    requires FreshChain(n, d) && FreshChain(m, e) && p < d && q < e && p <= q
    requires Reaches(n, p) && Reaches(m, q) && Level(n, p) == Level(m, q)
    ensures n == m
  {
    assert n in Nodes(a) + Nodes(b) && IsLoad(n) && n.refCount <= 1;
    hide HonestCounts, Nodes, Placed, FreshChain;
    Upward(a, b, n, d, p, m, e, q);
    NotBelow(a, b, n, m, q - p);
  }

  /** And end together: where one of them ends, the next load is shared with the other tree. */
  lemma {:induction false} SameDepth(a: Node, b: Node, x: Node, y: Node, d: nat, e: nat)
    requires HonestCounts(a, b) && Nodes(x) <= Nodes(a) + Nodes(b) && Nodes(y) <= Nodes(a) + Nodes(b)
    requires Lockstep(x, y, d) && d > 0 && FreshChain(x, e) && Chain(x, e)
    ensures e <= d
  {
    if d < e {
      if d == 1 {
        assert x.Indirect? && x.base in Nodes(x);
        OneParent(a, b, x.base, x, y);
        assert false;
      } else {
        SameDepth(a, b, x.base, y.base, d - 1, e - 1);
      }
    }
  }

  /** A side with what it is matched against. */
  ghost predicate SidePlaced(a: Node, b: Node, k: Side, partner: Node) {
    && (Placed(k.node, a) || Placed(k.node, b)) && (partner in Nodes(a) || partner in Nodes(b))
    && Lockstep(k.node, partner, k.depth) && Chain(k.node, k.depth)
  }

  lemma {:induction false} PartnerOf(leaves: seq<Leaf>, a: Node, b: Node, k: Side) returns (partner: Node)
    requires InPlace(leaves, a, b) && LeavesWithin(leaves, a, b) && (k in Lefts(leaves) || k in Rights(leaves))
    ensures SidePlaced(a, b, k, partner)
  {
    var l := leaves[0];
    LockstepSym(l.left, l.right, l.depth);
    if k == Side(l.left, l.depth) {
      partner := l.right;
    } else if k == Side(l.right, l.depth) {
      partner := l.left;
    } else {
      partner := PartnerOf(leaves[1..], a, b, k);
    }
  }

  lemma SideStarts(i: Node, n: Node, depth: nat)
    requires OnSide(i, n, depth)
    ensures depth > 0
  {
  }

  lemma SidesAgree(a: Node, b: Node, j: Side, k: Side, y: Node, z: Node, i: Node)
    requires HonestCounts(a, b) && SidePlaced(a, b, j, y) && SidePlaced(a, b, k, z)
    requires OnSide(i, j.node, j.depth) && OnSide(i, k.node, k.depth)
    ensures j == k
  {
    hide HonestCounts, Lockstep, FreshChain, OnSide, Nodes, Chain;
    LockstepFresh(j.node, y, j.depth);
    LockstepFresh(k.node, z, k.depth);
    SameTop(a, b, j.node, j.depth, k.node, k.depth, i);
    NodesBelow(if j.node in Nodes(a) then a else b, j.node);
    NodesBelow(if y in Nodes(a) then a else b, y);
    NodesBelow(if z in Nodes(a) then a else b, z);
    SideStarts(i, j.node, j.depth);
    SideStarts(i, k.node, k.depth);
    SameDepth(a, b, j.node, y, j.depth, k.depth);
    SameDepth(a, b, k.node, z, k.depth, j.depth);
  }

  /** Before evaluation, with honest counts, a yes is right in every world in order if and only if what is not
      settled cancels. */
  lemma MatchSafeBeforeEvaluation(a: Node, b: Node, w: nat)
    requires AddressesMatch(a, b, true, false) && w <= 64 && HonestCounts(a, b)
    requires NumbersIdentify(Nodes(a) + Nodes(b)) && MetaDataBySymbol(Nodes(a) + Nodes(b))
    ensures AlwaysEqual(a, b, false, w) <==> Balanced(Leaves(a, b, false), Read(a, b, false), w)
  {
    var leaves, read := Leaves(a, b, false), Read(a, b, false);
    LeavesInPlace(a, b);
    LeavesAreWithin(a, b, false);
    forall j, k, i | j in Lefts(leaves) + Rights(leaves) && k in Lefts(leaves) + Rights(leaves)
        && OnSide(i, j.node, j.depth) && OnSide(i, k.node, k.depth) && !Settled(i, read)
      ensures j == k
    {
      var y := PartnerOf(leaves, a, b, j);
      var z := PartnerOf(leaves, a, b, k);
      SidesAgree(a, b, j, k, y, z, i);
    }
    MatchSafeExactly(a, b, false, w);
  }
}
