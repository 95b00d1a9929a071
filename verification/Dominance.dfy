/** Control-flow graphs, paths from the entry, dominance as a statement about all paths, and dominator trees. */
module Dominance {

  type Node = nat

  /** Successors in order, as a terminator lists them; a block may appear more than once. */
  datatype Graph = Graph(root: Node, succs: map<Node, seq<Node>>)
  {
    ghost predicate Valid() {
      && root in succs
      && forall x, k :: x in succs && 0 <= k < |succs[x]| ==> succs[x][k] in succs
    }

    predicate Edge(x: Node, y: Node) { x in succs && y in succs[x] }
  }

  ghost predicate IsPath(g: Graph, p: seq<Node>) {
    && |p| > 0 && p[0] == g.root
    && forall i :: 0 <= i < |p| - 1 ==> g.Edge(p[i], p[i + 1])
  }

  ghost predicate PathTo(g: Graph, p: seq<Node>, x: Node) { IsPath(g, p) && p[|p| - 1] == x }

  ghost predicate Reachable(g: Graph, x: Node) { exists p :: PathTo(g, p, x) }

  /** Every path from the entry to x goes through a. */
  ghost predicate Dominates(g: Graph, a: Node, x: Node) { forall p :: PathTo(g, p, x) ==> a in p }

  ghost predicate StrictlyDominates(g: Graph, a: Node, x: Node) { a != x && Dominates(g, a, x) }

  lemma PrefixPath(g: Graph, p: seq<Node>, i: nat)
    requires IsPath(g, p) && i < |p|
    ensures PathTo(g, p[..i + 1], p[i])
  {
  }

  lemma ExtendPath(g: Graph, p: seq<Node>, x: Node, y: Node)
    requires PathTo(g, p, x) && g.Edge(x, y)
    ensures PathTo(g, p + [y], y)
  {
    var q := p + [y];
    forall i | 0 <= i < |q| - 1 ensures g.Edge(q[i], q[i + 1]) {
      if i < |p| - 1 { assert g.Edge(p[i], p[i + 1]); }
    }
  }

  lemma ReachableStep(g: Graph, x: Node, y: Node)
    requires Reachable(g, x) && g.Edge(x, y)
    ensures Reachable(g, y)
  {
    var p :| PathTo(g, p, x);
    ExtendPath(g, p, x, y);
  }

  lemma DominatesSelf(g: Graph, x: Node)
    ensures Dominates(g, x, x)
  {
  }

  lemma DominatesTrans(g: Graph, a: Node, b: Node, x: Node)
    requires Dominates(g, a, b) && Dominates(g, b, x)
    ensures Dominates(g, a, x)
  {
    forall p | PathTo(g, p, x) ensures a in p {
      var i :| 0 <= i < |p| && p[i] == b;
      PrefixPath(g, p, i);
      assert a in p[..i + 1];
    }
  }

  /** A dominator of a reachable block is reachable. */
  lemma DominatorReachable(g: Graph, a: Node, x: Node)
    requires Reachable(g, x) && Dominates(g, a, x)
    ensures Reachable(g, a)
  {
    var p :| PathTo(g, p, x);
    var i :| 0 <= i < |p| && p[i] == a;
    PrefixPath(g, p, i);
  }

  /** What strictly dominates a block dominates each of its predecessors. */
  lemma DominatesPred(g: Graph, a: Node, x: Node, y: Node)
    requires g.Edge(x, y) && StrictlyDominates(g, a, y)
    ensures Dominates(g, a, x)
  {
    forall p | PathTo(g, p, x) ensures a in p {
      ExtendPath(g, p, x, y);
      assert a in p + [y];
    }
  }

  /** Two different blocks on a path cannot dominate each other. */
  lemma {:induction false} NoMutual(g: Graph, a: Node, b: Node, p: seq<Node>)
    requires Dominates(g, a, b) && Dominates(g, b, a) && PathTo(g, p, b)
    ensures a == b
    decreases |p|
  {
    if a != b {
      var i :| 0 <= i < |p| && p[i] == a;
      PrefixPath(g, p, i);
      var q := p[..i + 1];
      assert b in q;
      var k :| 0 <= k < |q| && q[k] == b;
      PrefixPath(g, q, k);
      NoMutual(g, a, b, q[..k + 1]);
    }
  }

  lemma Antisymmetric(g: Graph, a: Node, b: Node)
    requires Dominates(g, a, b) && Dominates(g, b, a) && Reachable(g, b)
    ensures a == b
  {
    var p :| PathTo(g, p, b);
    NoMutual(g, a, b, p);
  }

  // ----- The immediate dominator and the tree it makes -----

  /** The strict dominator that every other strict dominator dominates. */
  ghost predicate ImmediatelyDominates(g: Graph, d: Node, x: Node) {
    StrictlyDominates(g, d, x) && forall a :: StrictlyDominates(g, a, x) ==> Dominates(g, a, d)
  }

  datatype DomTree = DomTree(idom: map<Node, Node>, children: map<Node, seq<Node>>)

  /** The tree is the dominator tree of the graph's reachable part. */
  ghost predicate IsDomTree(g: Graph, dt: DomTree) {
    && g.Valid()
    && (forall x :: x in dt.idom <==> Reachable(g, x) && x != g.root)
    && (forall x :: x in dt.idom ==> ImmediatelyDominates(g, dt.idom[x], x))
    && (forall x :: x in dt.children <==> Reachable(g, x))
    && (forall x {:trigger Children(dt, x)} :: x in dt.children ==> ChildrenOK(dt, x))
  }

  function Children(dt: DomTree, x: Node): seq<Node> { if x in dt.children then dt.children[x] else [] }

  /** The children of x are the blocks whose immediate dominator it is, each once. */
  ghost predicate ChildrenOK(dt: DomTree, x: Node) {
    var cs := Children(dt, x);
    && (forall c {:trigger c in cs} :: c in cs <==> c in dt.idom && dt.idom[c] == x)
    && forall i, j :: 0 <= i < j < |cs| ==> cs[i] != cs[j]
  }

  /** The dominators of a reachable block, a finite set that shrinks up the tree. */
  ghost function Dominators(g: Graph, x: Node): set<Node> { set d | d in g.succs && Dominates(g, d, x) }

  lemma ReachableInGraph(g: Graph, x: Node)
    requires g.Valid() && Reachable(g, x)
    ensures x in g.succs
  {
    var p :| PathTo(g, p, x);
    if |p| > 1 { assert g.Edge(p[|p| - 2], p[|p| - 2 + 1]); }
  }

  lemma IdomCloser(g: Graph, dt: DomTree, x: Node)
    requires IsDomTree(g, dt) && x in dt.idom
    ensures Reachable(g, dt.idom[x]) && Dominators(g, dt.idom[x]) < Dominators(g, x)
    ensures Dominates(g, dt.idom[x], x) && dt.idom[x] != x
  {
    var d := dt.idom[x];
    DominatorReachable(g, d, x);
    ReachableInGraph(g, x);
    forall a | a in Dominators(g, d) ensures a in Dominators(g, x) {
      DominatesTrans(g, a, d, x);
    }
    if Dominates(g, x, d) { Antisymmetric(g, x, d); }
    DominatesSelf(g, x);
    assert x in Dominators(g, x) && x !in Dominators(g, d);
  }

  /** The answer the tree gives to "does a dominate x": walk up from x. */
  ghost predicate TreeDominates(g: Graph, dt: DomTree, a: Node, x: Node)
    requires IsDomTree(g, dt) && Reachable(g, x)
    decreases |Dominators(g, x)|
  {
    a == x || (x in dt.idom &&
      (IdomCloser(g, dt, x); SmallerSet(Dominators(g, dt.idom[x]), Dominators(g, x)); TreeDominates(g, dt, a, dt.idom[x])))
  }

  lemma SmallerSet(a: set<Node>, b: set<Node>)
    requires a < b
    ensures |a| < |b|
  {
    var c := b - a;
    assert b == a + c;
    assert c != {};
    assert |b| == |a| + |c|;
  }

  /** The tree's answer is the truth. */
  lemma {:induction false} TreeDominatesIsDominance(g: Graph, dt: DomTree, a: Node, x: Node)
    requires IsDomTree(g, dt) && Reachable(g, x)
    ensures TreeDominates(g, dt, a, x) <==> Dominates(g, a, x)
    decreases |Dominators(g, x)|
  {
    if a == x {
      DominatesSelf(g, x);
    } else if x in dt.idom {
      var d := dt.idom[x];
      IdomCloser(g, dt, x);
      SmallerSet(Dominators(g, d), Dominators(g, x));
      TreeDominatesIsDominance(g, dt, a, d);
      if Dominates(g, a, d) { DominatesTrans(g, a, d, x); }
    } else {
      assert x == g.root;
      assert PathTo(g, [x], x);
    }
  }

  /** Between a block and one it strictly dominates lies exactly one of its children. */
  lemma {:induction false} ChildToward(g: Graph, dt: DomTree, b: Node, x: Node) returns (c: Node)
    requires IsDomTree(g, dt) && Reachable(g, x) && StrictlyDominates(g, b, x)
    ensures c in dt.idom && dt.idom[c] == b && Dominates(g, c, x)
    decreases |Dominators(g, x)|
  {
    assert x != g.root by { if x == g.root { assert PathTo(g, [x], x); } }
    var d := dt.idom[x];
    IdomCloser(g, dt, x);
    if d == b {
      c := x;
      DominatesSelf(g, x);
    } else {
      SmallerSet(Dominators(g, d), Dominators(g, x));
      c := ChildToward(g, dt, b, d);
      DominatesTrans(g, c, d, x);
    }
  }
}
