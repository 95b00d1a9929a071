/** Dominance frontiers, computed by an explicit-stack walk of the dominator tree, equal the definition by paths. */
module DominanceFrontier {
  import opened Options
  import opened Dominance

  /** y is in the frontier of b: b dominates a reachable predecessor of y but does not strictly dominate y. */
  ghost predicate InFrontier(g: Graph, b: Node, y: Node) {
    !StrictlyDominates(g, b, y) && exists x :: DominatedPred(g, b, x, y)
  }

  ghost predicate DominatedPred(g: Graph, b: Node, x: Node, y: Node) {
    Reachable(g, x) && g.Edge(x, y) && Dominates(g, b, x)
  }

  function IdomOf(dt: DomTree, x: Node): Option<Node> { if x in dt.idom then Some(dt.idom[x]) else None }

  // ----- The recurrence the walk relies on -----

  /** A successor not immediately dominated is in the frontier. */
  lemma LocalInFrontier(g: Graph, dt: DomTree, b: Node, y: Node)
    requires IsDomTree(g, dt) && Reachable(g, b) && g.Edge(b, y) && IdomOf(dt, y) != Some(b)
    ensures InFrontier(g, b, y)
  {
    DominatesSelf(g, b);
    assert DominatedPred(g, b, b, y);
    if StrictlyDominates(g, b, y) {
      ReachableStep(g, b, y);
      NotRoot(g, b, y);
      var d := dt.idom[y];
      assert ImmediatelyDominates(g, d, y);
      DominatesPred(g, d, b, y);
      Antisymmetric(g, d, b);
    }
  }

  lemma NotRoot(g: Graph, a: Node, y: Node)
    requires StrictlyDominates(g, a, y)
    ensures y != g.root
  {
    if y == g.root { assert PathTo(g, [y], y); }
  }

  /** What a child hands up is in the frontier. */
  lemma UpInFrontier(g: Graph, dt: DomTree, b: Node, c: Node, y: Node)
    requires IsDomTree(g, dt) && IdomOf(dt, c) == Some(b) && InFrontier(g, c, y) && !StrictlyDominates(g, b, y)
    ensures InFrontier(g, b, y)
  {
    var x :| DominatedPred(g, c, x, y);
    IdomCloser(g, dt, c);
    DominatesTrans(g, b, c, x);
    assert DominatedPred(g, b, x, y);
  }

  /** Nothing else is: a frontier block is a successor or is handed up by a child. */
  lemma FrontierFromBelow(g: Graph, dt: DomTree, b: Node, y: Node) returns (c: Node)
    requires IsDomTree(g, dt) && Reachable(g, b) && InFrontier(g, b, y)
    ensures (g.Edge(b, y) && IdomOf(dt, y) != Some(b)) || (IdomOf(dt, c) == Some(b) && InFrontier(g, c, y))
  {
    var x :| DominatedPred(g, b, x, y);
    c := b;
    if x != b {
      c := ChildToward(g, dt, b, x);
      IdomCloser(g, dt, c);
      if StrictlyDominates(g, c, y) {
        DominatesTrans(g, b, c, y);
        Antisymmetric(g, b, c);
      }
      assert DominatedPred(g, c, x, y);
    }
  }

  // ----- The state of the walk -----

  datatype Work = Work(node: Node, parent: Option<Node>)

  type Sets = map<Node, set<Node>>

  function SetOf(fr: Sets, b: Node): set<Node> { if b in fr then fr[b] else {} }

  /** The successors that a block itself contributes. */
  function LocalSet(g: Graph, dt: DomTree, b: Node): set<Node> {
    if b in g.succs then set y | y in g.succs[b] && IdomOf(dt, y) != Some(b) else {}
  }

  predicate OnStack(st: seq<Work>, x: Node) { exists i :: 0 <= i < |st| && st[i].node == x }

  /** Everything collected so far belongs there. */
  ghost predicate Sound(g: Graph, fr: Sets) {
    forall b, y {:trigger InFrontier(g, b, y)} :: b in fr && y in fr[b] ==> InFrontier(g, b, y)
  }

  /** The stack holds tree nodes, each once, every one but the start above its parent. */
  ghost predicate StackOK(dt: DomTree, n: Node, st: seq<Work>, visited: set<Node>) {
    && |st| > 0 && st[0] == Work(n, None)
    && (forall i, j {:trigger st[i], st[j]} :: 0 <= i < j < |st| ==> st[i].node != st[j].node)
    && (forall i {:trigger st[i]} :: 0 < i < |st| ==>
         st[i].parent.Some? && st[i].parent == IdomOf(dt, st[i].node) && st[i].parent.value in visited
         && OnStack(st[..i], st[i].parent.value))
  }

  /** A finished block's set is complete and has been handed up. */
  ghost predicate Finished(g: Graph, dt: DomTree, n: Node, fr: Sets, b: Node) {
    && b != n && b in dt.idom
    && forall y {:trigger InFrontier(g, b, y)} :: InFrontier(g, b, y) ==>
         y in SetOf(fr, b) && (!StrictlyDominates(g, dt.idom[b], y) ==> y in SetOf(fr, dt.idom[b]))
  }

  ghost predicate VisitedOK(g: Graph, dt: DomTree, n: Node, st: seq<Work>, visited: set<Node>, fr: Sets, b: Node) {
    && Reachable(g, b) && LocalSet(g, dt, b) <= SetOf(fr, b)
    && (forall c {:trigger c in Children(dt, b)} :: c in Children(dt, b) ==> c in visited || OnStack(st, c))
    && (OnStack(st, b) || Finished(g, dt, n, fr, b))
  }

  ghost predicate Walk(g: Graph, dt: DomTree, n: Node, st: seq<Work>, visited: set<Node>, fr: Sets) {
    && IsDomTree(g, dt) && Reachable(g, n) && Sound(g, fr) && StackOK(dt, n, st, visited)
    && (forall b {:trigger VisitedOK(g, dt, n, st, visited, fr, b)} :: b in visited ==> VisitedOK(g, dt, n, st, visited, fr, b))
    && (forall i {:trigger st[i]} :: 0 <= i < |st| ==> Reachable(g, st[i].node) && Dominates(g, n, st[i].node))
  }

  // ----- What one turn does, as values -----

  /** The children still to be visited, as work. */
  function Pending(cs: seq<Node>, visited: set<Node>, b: Node): seq<Work> {
    if cs == [] then []
    else Pending(cs[..|cs| - 1], visited, b) + (if cs[|cs| - 1] in visited then [] else [Work(cs[|cs| - 1], Some(b))])
  }

  /** Every child not visited becomes work. */
  lemma {:induction false} PendingCovers(cs: seq<Node>, visited: set<Node>, b: Node, c: Node)
    requires c in cs && c !in visited
    ensures OnStack(Pending(cs, visited, b), c)
  {
    var cs' := cs[..|cs| - 1];
    var ws', ws := Pending(cs', visited, b), Pending(cs, visited, b);
    if c == cs[|cs| - 1] {
      assert ws[|ws'|].node == c;
    } else {
      PendingCovers(cs', visited, b, c);
      var i :| 0 <= i < |ws'| && ws'[i].node == c;
      assert ws[i].node == c;
    }
  }

  /** A piece of work for a child of b. */
  predicate ChildWork(cs: seq<Node>, visited: set<Node>, b: Node, w: Work) {
    w.node in cs && w.node !in visited && w.parent == Some(b)
  }

  ghost predicate Distinct(ws: seq<Work>) {
    forall i, j {:trigger ws[i], ws[j]} :: 0 <= i < j < |ws| ==> ws[i].node != ws[j].node
  }

  /** Nothing else becomes work, and nothing twice. */
  lemma {:induction false} PendingContents(cs: seq<Node>, visited: set<Node>, b: Node, ws: seq<Work>)
    requires forall i, j :: 0 <= i < j < |cs| ==> cs[i] != cs[j]
    requires ws == Pending(cs, visited, b)
    ensures forall i {:trigger ws[i]} :: 0 <= i < |ws| ==> ChildWork(cs, visited, b, ws[i])
    ensures Distinct(ws)
  {
    if cs != [] {
      var cs', c := cs[..|cs| - 1], cs[|cs| - 1];
      var ws' := Pending(cs', visited, b);
      PendingContents(cs', visited, b, ws');
      forall i | 0 <= i < |ws| ensures ChildWork(cs, visited, b, ws[i]) {
        if i < |ws'| { assert ws[i] == ws'[i]; }
      }
      forall i, j | 0 <= i < j < |ws| ensures ws[i].node != ws[j].node {
        assert ws[i] == ws'[i];
        if j < |ws'| { assert ws[j] == ws'[j]; } else { assert ws[i].node in cs' && c !in cs'; }
      }
    }
  }

  /** What the parent receives from a block's set. */
  ghost function HandedUp(g: Graph, s: set<Node>, parent: Node): set<Node> {
    set y | y in s && !StrictlyDominates(g, parent, y)
  }

  // ----- The steps of the walk keep its invariant -----

  lemma NotAncestorChild(g: Graph, dt: DomTree, n: Node, b: Node)
    requires IsDomTree(g, dt) && Reachable(g, b) && Dominates(g, n, b)
    ensures IdomOf(dt, n) != Some(b)
  {
    if IdomOf(dt, n) == Some(b) {
      IdomCloser(g, dt, n);
      Antisymmetric(g, n, b);
    }
  }

  function Top(st: seq<Work>): Work
    requires |st| > 0
  {
    st[|st| - 1]
  }

  /** A child of the block on top is not on the stack. */
  lemma ChildNotOnStack(g: Graph, dt: DomTree, n: Node, st: seq<Work>, visited: set<Node>, fr: Sets, c: Node)
    requires Walk(g, dt, n, st, visited, fr) && IdomOf(dt, c) == Some(Top(st).node)
    ensures !OnStack(st, c)
  {
    var b := Top(st).node;
    if OnStack(st, c) {
      var i :| 0 <= i < |st| && st[i].node == c;
      if i == 0 {
        NotAncestorChild(g, dt, n, b);
      }
    }
  }

  lemma VisitStack(g: Graph, dt: DomTree, n: Node, st: seq<Work>, visited: set<Node>, fr: Sets)
    requires Walk(g, dt, n, st, visited, fr)
    ensures var b := Top(st).node; var visited' := visited + {b};
            var st' := st + Pending(Children(dt, b), visited', b);
            && StackOK(dt, n, st', visited')
            && (forall i {:trigger st'[i]} :: 0 <= i < |st'| ==> Reachable(g, st'[i].node) && Dominates(g, n, st'[i].node))
  {
    var b := Top(st).node;
    var visited' := visited + {b};
    var ws := Pending(Children(dt, b), visited', b);
    var st' := st + ws;
    assert b in dt.children && ChildrenOK(dt, b);
    PendingContents(Children(dt, b), visited', b, Pending(Children(dt, b), visited', b));
    forall i | 0 <= i < |ws|
      ensures !OnStack(st, ws[i].node) && IdomOf(dt, ws[i].node) == Some(b)
              && Reachable(g, ws[i].node) && Dominates(g, n, ws[i].node)
    {
      var c := ws[i].node;
      assert c in Children(dt, b);
      ChildNotOnStack(g, dt, n, st, visited, fr, c);
      IdomCloser(g, dt, c);
      DominatesTrans(g, n, b, c);
    }
    forall i, j | 0 <= i < j < |st'| ensures st'[i].node != st'[j].node {
      if i < |st| <= j { assert !OnStack(st, ws[j - |st|].node); assert st[i].node == st'[i].node; }
    }
    forall i | 0 < i < |st'|
      ensures st'[i].parent.Some? && st'[i].parent == IdomOf(dt, st'[i].node) && st'[i].parent.value in visited'
              && OnStack(st'[..i], st'[i].parent.value)
    {
      if i < |st| { assert st'[..i] == st[..i]; assert st'[i] == st[i]; }
      else { assert st'[i] == ws[i - |st|]; assert st'[..i][|st| - 1].node == b; }
    }
  }

  lemma FinishedGrows(g: Graph, dt: DomTree, n: Node, fr: Sets, fr': Sets, b: Node)
    requires Finished(g, dt, n, fr, b) && forall x :: SetOf(fr, x) <= SetOf(fr', x)
    ensures Finished(g, dt, n, fr', b)
  {
    assert SetOf(fr, b) <= SetOf(fr', b) && SetOf(fr, dt.idom[b]) <= SetOf(fr', dt.idom[b]);
  }

  /** A first visit: the block's own successors go in, its children go on the stack. */
  lemma VisitStep(g: Graph, dt: DomTree, n: Node, st: seq<Work>, visited: set<Node>, fr: Sets)
    requires Walk(g, dt, n, st, visited, fr) && Top(st).node !in visited
    ensures var b := Top(st).node; var visited' := visited + {b};
            Walk(g, dt, n, st + Pending(Children(dt, b), visited', b), visited', fr[b := SetOf(fr, b) + LocalSet(g, dt, b)])
  {
    var b := Top(st).node;
    hide StackOK;
    var visited' := visited + {b};
    var ws := Pending(Children(dt, b), visited', b);
    var st' := st + ws;
    var fr' := fr[b := SetOf(fr, b) + LocalSet(g, dt, b)];
    VisitStack(g, dt, n, st, visited, fr);
    forall x, y | x in fr' && y in fr'[x] ensures InFrontier(g, x, y) {
      if x == b && y in LocalSet(g, dt, b) { LocalInFrontier(g, dt, b, y); }
    }
    forall x | x in visited' ensures VisitedOK(g, dt, n, st', visited', fr', x) {
      if x != b {
        assert VisitedOK(g, dt, n, st, visited, fr, x);
        KeepVisited(g, dt, n, st, visited, fr, st', visited', fr', x);
      } else {
        TopVisited(g, dt, n, st, visited, fr);
      }
    }
  }

  lemma KeepVisited(g: Graph, dt: DomTree, n: Node, st: seq<Work>, visited: set<Node>, fr: Sets,
                    st': seq<Work>, visited': set<Node>, fr': Sets, x: Node)
    requires VisitedOK(g, dt, n, st, visited, fr, x)
    requires st <= st' && visited <= visited' && forall z :: SetOf(fr, z) <= SetOf(fr', z)
    ensures VisitedOK(g, dt, n, st', visited', fr', x)
  {
    forall c | OnStack(st, c) ensures OnStack(st', c) {
      var i :| 0 <= i < |st| && st[i].node == c;
      assert st'[i].node == c;
    }
    if !OnStack(st, x) { FinishedGrows(g, dt, n, fr, fr', x); }
    assert SetOf(fr, x) <= SetOf(fr', x);
  }

  lemma TopVisited(g: Graph, dt: DomTree, n: Node, st: seq<Work>, visited: set<Node>, fr: Sets)
    requires IsDomTree(g, dt) && |st| > 0 && Reachable(g, Top(st).node)
    ensures var b := Top(st).node; var visited' := visited + {b};
            VisitedOK(g, dt, n, st + Pending(Children(dt, b), visited', b), visited',
                      fr[b := SetOf(fr, b) + LocalSet(g, dt, b)], b)
  {
    var b := Top(st).node;
    var visited' := visited + {b};
    var ws := Pending(Children(dt, b), visited', b);
    var st' := st + ws;
    assert ChildrenOK(dt, b);
    PendingContents(Children(dt, b), visited', b, Pending(Children(dt, b), visited', b));
    forall c | c in Children(dt, b) ensures c in visited' || OnStack(st', c) {
      if c !in visited' {
        PendingCovers(Children(dt, b), visited', b, c);
        var i :| 0 <= i < |ws| && ws[i].node == c;
        assert st'[|st| + i].node == c;
      }
    }
    assert st'[|st| - 1].node == b;
  }

  /** Once the block on top has been visited and nothing is pending above it, all its children are finished. */
  lemma ChildrenFinished(g: Graph, dt: DomTree, n: Node, st: seq<Work>, visited: set<Node>, fr: Sets, c: Node)
    requires Walk(g, dt, n, st, visited, fr) && Top(st).node in visited && IdomOf(dt, c) == Some(Top(st).node)
    ensures c in visited && Finished(g, dt, n, fr, c)
  {
    var b := Top(st).node;
    assert VisitedOK(g, dt, n, st, visited, fr, b);
    assert b in dt.children && ChildrenOK(dt, b);
    assert c in Children(dt, b);
    ChildNotOnStack(g, dt, n, st, visited, fr, c);
    assert VisitedOK(g, dt, n, st, visited, fr, c);
  }

  lemma NothingPending(g: Graph, dt: DomTree, n: Node, st: seq<Work>, visited: set<Node>, fr: Sets)
    requires Walk(g, dt, n, st, visited, fr) && Top(st).node in visited
    ensures Pending(Children(dt, Top(st).node), visited, Top(st).node) == []
  {
    var b := Top(st).node;
    assert b in dt.children && ChildrenOK(dt, b);
    PendingContents(Children(dt, b), visited, b, Pending(Children(dt, b), visited, b));
    var ws := Pending(Children(dt, b), visited, b);
    if ws != [] {
      assert ws[0].node in Children(dt, b);
      ChildrenFinished(g, dt, n, st, visited, fr, ws[0].node);
    }
  }

  /** The set of a block about to be handed up is its whole frontier. */
  lemma TopComplete(g: Graph, dt: DomTree, n: Node, st: seq<Work>, visited: set<Node>, fr: Sets, y: Node)
    requires Walk(g, dt, n, st, visited, fr) && Top(st).node in visited
    ensures InFrontier(g, Top(st).node, y) <==> y in SetOf(fr, Top(st).node)
  {
    var b := Top(st).node;
    assert VisitedOK(g, dt, n, st, visited, fr, b);
    if InFrontier(g, b, y) {
      var c := FrontierFromBelow(g, dt, b, y);
      if g.Edge(b, y) && IdomOf(dt, y) != Some(b) {
        assert y in LocalSet(g, dt, b);
      } else {
        ChildrenFinished(g, dt, n, st, visited, fr, c);
      }
    }
  }

  /** A finished block is handed up and leaves the stack. */
  lemma FinishStep(g: Graph, dt: DomTree, n: Node, st: seq<Work>, visited: set<Node>, fr: Sets)
    requires Walk(g, dt, n, st, visited, fr) && |st| > 1 && Top(st).node in visited && Top(st).parent.Some?
    ensures var b := Top(st).node; var p := Top(st).parent.value;
            Walk(g, dt, n, st[..|st| - 1], visited, fr[p := SetOf(fr, p) + HandedUp(g, SetOf(fr, b), p)])
  {
    var b := Top(st).node;
    var p := Top(st).parent.value;
    var st' := st[..|st| - 1];
    var fr' := fr[p := SetOf(fr, p) + HandedUp(g, SetOf(fr, b), p)];
    PopStack(dt, n, st, visited);
    forall x, y | x in fr' && y in fr'[x] ensures InFrontier(g, x, y) {
      if x == p && y !in SetOf(fr, p) { UpInFrontier(g, dt, p, b, y); }
    }
    forall x | x in visited ensures VisitedOK(g, dt, n, st', visited, fr', x) {
      assert VisitedOK(g, dt, n, st, visited, fr, x);
      PopVisited(g, dt, n, st, visited, fr, fr', x);
    }
    forall i | 0 <= i < |st'| ensures Reachable(g, st'[i].node) && Dominates(g, n, st'[i].node) {
      assert st'[i] == st[i];
    }
  }

  lemma PopStack(dt: DomTree, n: Node, st: seq<Work>, visited: set<Node>)
    requires StackOK(dt, n, st, visited) && |st| > 1
    ensures StackOK(dt, n, st[..|st| - 1], visited)
  {
    var st' := st[..|st| - 1];
    forall i | 0 < i < |st'|
      ensures st'[i].parent.Some? && st'[i].parent == IdomOf(dt, st'[i].node) && st'[i].parent.value in visited
              && OnStack(st'[..i], st'[i].parent.value)
    {
      assert st'[..i] == st[..i] && st'[i] == st[i];
    }
  }

  lemma StillOnStack(st: seq<Work>, c: Node)
    requires |st| > 0 && OnStack(st, c) && c != Top(st).node
    ensures OnStack(st[..|st| - 1], c)
  {
    var i :| 0 <= i < |st| && st[i].node == c;
    assert st[..|st| - 1][i].node == c;
  }

  lemma PopVisited(g: Graph, dt: DomTree, n: Node, st: seq<Work>, visited: set<Node>, fr: Sets, fr': Sets, x: Node)
    requires Walk(g, dt, n, st, visited, fr) && |st| > 1 && Top(st).node in visited && Top(st).parent.Some?
    requires var b := Top(st).node; var p := Top(st).parent.value;
             fr' == fr[p := SetOf(fr, p) + HandedUp(g, SetOf(fr, b), p)]
    requires VisitedOK(g, dt, n, st, visited, fr, x)
    ensures VisitedOK(g, dt, n, st[..|st| - 1], visited, fr', x)
  {
    var b := Top(st).node;
    var st' := st[..|st| - 1];
    forall c | OnStack(st, c) && c != b ensures OnStack(st', c) {
      StillOnStack(st, c);
    }
    hide OnStack, StackOK;
    if x == b {
      TopFinished(g, dt, n, st, visited, fr, fr');
    } else if !OnStack(st, x) {
      FinishedGrows(g, dt, n, fr, fr', x);
    }
  }

  lemma TopFinished(g: Graph, dt: DomTree, n: Node, st: seq<Work>, visited: set<Node>, fr: Sets, fr': Sets)
    requires Walk(g, dt, n, st, visited, fr) && |st| > 1 && Top(st).node in visited && Top(st).parent.Some?
    requires var b := Top(st).node; var p := Top(st).parent.value;
             fr' == fr[p := SetOf(fr, p) + HandedUp(g, SetOf(fr, b), p)]
    ensures Finished(g, dt, n, fr', Top(st).node)
  {
    var b := Top(st).node;
    assert st[|st| - 1].node != st[0].node;
    forall y | InFrontier(g, b, y)
      ensures y in SetOf(fr', b) && (!StrictlyDominates(g, dt.idom[b], y) ==> y in SetOf(fr', dt.idom[b]))
    {
      TopComplete(g, dt, n, st, visited, fr, y);
    }
  }

  /** What the loop needs to know about the block on top. */
  lemma WalkTop(g: Graph, dt: DomTree, n: Node, st: seq<Work>, visited: set<Node>, fr: Sets)
    requires Walk(g, dt, n, st, visited, fr)
    ensures IsDomTree(g, dt) && |st| > 0 && Top(st).node in g.succs
    ensures Top(st).parent.None? <==> |st| == 1
    ensures Top(st).parent.None? ==> Top(st).node == n
    ensures Top(st).parent.Some? ==> Top(st).parent.value != Top(st).node
    ensures forall y :: y in SetOf(fr, Top(st).node) ==> Reachable(g, y)
  {
    var b := Top(st).node;
    ReachableInGraph(g, b);
    if |st| > 1 { IdomCloser(g, dt, b); }
    forall y | y in SetOf(fr, b) ensures Reachable(g, y) {
      assert InFrontier(g, b, y);
      var x :| DominatedPred(g, b, x, y);
      ReachableStep(g, x, y);
    }
  }

  // ----- The end of the walk -----

  /** With only the start left, everything below it has been visited. */
  lemma {:induction false} AllVisited(g: Graph, dt: DomTree, n: Node, st: seq<Work>, visited: set<Node>, fr: Sets, b: Node)
    requires Walk(g, dt, n, st, visited, fr) && |st| == 1 && n in visited
    requires Reachable(g, b) && Dominates(g, n, b)
    ensures b in visited
    decreases |Dominators(g, b)|
  {
    if b != n {
      NotRoot(g, n, b);
      var d := dt.idom[b];
      assert ImmediatelyDominates(g, d, b);
      IdomCloser(g, dt, b);
      SmallerSet(Dominators(g, d), Dominators(g, b));
      AllVisited(g, dt, n, st, visited, fr, d);
      assert VisitedOK(g, dt, n, st, visited, fr, d);
      assert d in dt.children && ChildrenOK(dt, d);
      assert b in Children(dt, d);
    }
  }

  lemma WalkResult(g: Graph, dt: DomTree, n: Node, st: seq<Work>, visited: set<Node>, fr: Sets, b: Node, y: Node)
    requires Walk(g, dt, n, st, visited, fr) && |st| == 1 && n in visited
    requires Reachable(g, b) && Dominates(g, n, b)
    ensures y in SetOf(fr, b) <==> InFrontier(g, b, y)
  {
    AllVisited(g, dt, n, st, visited, fr, b);
    assert VisitedOK(g, dt, n, st, visited, fr, b);
    if b == n { TopComplete(g, dt, n, st, visited, fr, y); }
  }

  lemma WalkEnds(g: Graph, dt: DomTree, n: Node, st: seq<Work>, visited: set<Node>, fr: Sets)
    requires Walk(g, dt, n, st, visited, fr) && |st| == 1 && n in visited
    ensures forall b, y {:trigger InFrontier(g, b, y)} ::
              Reachable(g, b) && Dominates(g, n, b) ==> (y in SetOf(fr, b) <==> InFrontier(g, b, y))
    ensures forall y :: y in SetOf(fr, n) <==> InFrontier(g, n, y)
    ensures Sound(g, fr)
  {
    forall b, y | Reachable(g, b) && Dominates(g, n, b) ensures y in SetOf(fr, b) <==> InFrontier(g, b, y) {
      WalkResult(g, dt, n, st, visited, fr, b, y);
    }
    forall y ensures y in SetOf(fr, n) <==> InFrontier(g, n, y) {
      TopComplete(g, dt, n, st, visited, fr, y);
    }
  }

  class DominanceFrontier {
    var Frontiers: Sets

    /** Tree walk up from b, as the dominator tree answers when it has no numbering. */
    method ProperlyDominates(dt: DomTree, a: Node, b: Node, ghost g: Graph) returns (r: bool)
      requires IsDomTree(g, dt) && Reachable(g, b)
      ensures r <==> StrictlyDominates(g, a, b)
    {
      if a == b {
        return false;
      }
      TreeDominatesIsDominance(g, dt, a, b);
      var x := b;
      while x != a && x in dt.idom
        invariant Reachable(g, x) && (TreeDominates(g, dt, a, b) <==> TreeDominates(g, dt, a, x))
        decreases |Dominators(g, x)|
      {
        IdomCloser(g, dt, x);
        SmallerSet(Dominators(g, dt.idom[x]), Dominators(g, x));
        x := dt.idom[x];
      }
      r := x == a;
    }

    /** The loop over successors: DFlocal. */
    method InsertLocal(g: Graph, dt: DomTree, b: Node)
      requires b in g.succs
      modifies this
      ensures Frontiers == old(Frontiers)[b := SetOf(old(Frontiers), b) + LocalSet(g, dt, b)]
    {
      if b !in Frontiers { Frontiers := Frontiers[b := {}]; }
      for k := 0 to |g.succs[b]|
        invariant b in Frontiers
        invariant Frontiers == old(Frontiers)[b := Frontiers[b]]
        invariant Frontiers[b] == SetOf(old(Frontiers), b) + (set y | y in g.succs[b][..k] && IdomOf(dt, y) != Some(b))
      {
        var s := g.succs[b][k];
        assert g.succs[b][..k + 1] == g.succs[b][..k] + [s];
        if IdomOf(dt, s) != Some(b) {
          Frontiers := Frontiers[b := Frontiers[b] + {s}];
        }
      }
      assert g.succs[b][..|g.succs[b]|] == g.succs[b];
    }

    /** The loop over children: push those not visited yet. */
    method PushChildren(dt: DomTree, b: Node, visited: set<Node>, st0: seq<Work>) returns (st: seq<Work>, visitChild: bool)
      ensures st == st0 + Pending(Children(dt, b), visited, b)
      ensures visitChild <==> Pending(Children(dt, b), visited, b) != []
    {
      st, visitChild := st0, false;
      var cs := Children(dt, b);
      for k := 0 to |cs|
        invariant st == st0 + Pending(cs[..k], visited, b)
        invariant visitChild <==> Pending(cs[..k], visited, b) != []
      {
        assert cs[..k + 1][..k] == cs[..k];
        if cs[k] !in visited {
          st := st + [Work(cs[k], Some(b))];
          visitChild := true;
        }
      }
      assert cs[..|cs|] == cs;
    }

    /** The loop over a finished set: DFup into the parent's set. */
    method MergeUp(dt: DomTree, b: Node, parent: Node, ghost g: Graph)
      requires IsDomTree(g, dt) && b != parent
      requires forall y :: y in SetOf(Frontiers, b) ==> Reachable(g, y)
      modifies this
      ensures Frontiers == old(Frontiers)[parent := SetOf(old(Frontiers), parent) + HandedUp(g, SetOf(old(Frontiers), b), parent)]
    {
      if parent !in Frontiers { Frontiers := Frontiers[parent := {}]; }
      ghost var all := SetOf(old(Frontiers), b);
      var rest := SetOf(Frontiers, b);
      while rest != {}
        invariant rest <= all && parent in Frontiers
        invariant Frontiers == old(Frontiers)[parent := Frontiers[parent]]
        invariant Frontiers[parent] == SetOf(old(Frontiers), parent) + HandedUp(g, all - rest, parent)
        decreases rest
      {
        var y :| y in rest;
        assert all - (rest - {y}) == (all - rest) + {y};
        var dominated := ProperlyDominates(dt, parent, y, g);
        if !dominated {
          Frontiers := Frontiers[parent := Frontiers[parent] + {y}];
        }
        rest := rest - {y};
      }
      assert all - rest == all;
    }

    /** The walk from n. Afterwards the set of every block below n is its dominance frontier. */
    method Calculate(g: Graph, dt: DomTree, n: Node) returns (result: set<Node>)
      requires IsDomTree(g, dt) && Reachable(g, n) && Sound(g, Frontiers)
      modifies this
      ensures forall b, y {:trigger InFrontier(g, b, y)} ::
                Reachable(g, b) && Dominates(g, n, b) ==> (y in SetOf(Frontiers, b) <==> InFrontier(g, b, y))
      ensures forall y :: y in result <==> InFrontier(g, n, y)
      ensures Sound(g, Frontiers)
    {
      var workList := [Work(n, None)];
      var visited: set<Node> := {};
      DominatesSelf(g, n);
      assert Walk(g, dt, n, workList, visited, Frontiers);
      hide Walk, IsDomTree, Sound, InFrontier, Pending, HandedUp, LocalSet;
      while true
        invariant Walk(g, dt, n, workList, visited, Frontiers)
        invariant visited <= g.succs.Keys
        decreases g.succs.Keys - visited, |workList|
      {
        WalkTop(g, dt, n, workList, visited, Frontiers);
        var currentBB, parentBB := Top(workList).node, Top(workList).parent;
        if currentBB !in visited {
          VisitStep(g, dt, n, workList, visited, Frontiers);
          visited := visited + {currentBB};
          InsertLocal(g, dt, currentBB);
        } else {
          NothingPending(g, dt, n, workList, visited, Frontiers);
        }
        ghost var w := workList;
        assert w + [] == w;
        var visitChild;
        workList, visitChild := PushChildren(dt, currentBB, visited, workList);
        if !visitChild {
          if parentBB.None? {
            break;
          }
          WalkTop(g, dt, n, workList, visited, Frontiers);
          FinishStep(g, dt, n, workList, visited, Frontiers);
          MergeUp(dt, currentBB, parentBB.value, g);
          workList := workList[..|workList| - 1];
        }
      }
      WalkEnds(g, dt, n, workList, visited, Frontiers);
      result := SetOf(Frontiers, n);
    }
  }
}
