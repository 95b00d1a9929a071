/** The table of edge weights, filled block by block, and the probabilities that are read from it. */
module BranchProbability {
  import opened Options
  import opened BranchWeights

  type Edge = (Node, nat)

  type Table = map<Edge, nat>

  function WeightAt(t: Table, b: Node, i: nat): nat { if (b, i) in t then t[(b, i)] else DEFAULT_WEIGHT }

  /** The weights of the edges out of a block, by index. */
  function Row(t: Table, b: Node, n: nat): (ws: seq<nat>)
    ensures |ws| == n && forall i {:trigger ws[i]} :: 0 <= i < n ==> ws[i] == WeightAt(t, b, i)
  {
    seq<nat>(n, i requires 0 <= i < n => WeightAt(t, b, i))
  }

  /** The edges out of b have these weights, and nothing else has changed. */
  ghost predicate Written(t: Table, t': Table, b: Node, ws: seq<nat>) {
    && (forall i {:trigger ws[i]} :: 0 <= i < |ws| ==> (b, i) in t' && t'[(b, i)] == ws[i])
    && OthersKept(t, t', b)
  }

  ghost predicate OthersKept(t: Table, t': Table, b: Node) {
    forall e: Edge {:trigger e in t} {:trigger e in t'} :: e.0 != b ==> ((e in t <==> e in t') && (e in t ==> t'[e] == t[e]))
  }

  ghost predicate Outcome(t: Table, t': Table, b: Node, ws: Option<seq<nat>>) {
    if ws.None? then t' == t else Written(t, t', b, ws.value)
  }

  lemma WrittenRow(t: Table, t': Table, b: Node, ws: seq<nat>)
    requires Written(t, t', b, ws)
    ensures Row(t', b, |ws|) == ws
  {
  }

  lemma KeptRow(t: Table, t': Table, b: Node, c: Node, n: nat)
    requires OthersKept(t, t', b) && c != b
    ensures Row(t', c, n) == Row(t, c, n)
  {
    forall i | 0 <= i < n ensures WeightAt(t', c, i) == WeightAt(t, c, i) {
      assert (c, i) in t <==> (c, i) in t';
    }
  }

  // ----- Edges of a class -----

  lemma {:induction false} EdgesMember(kinds: seq<nat>, k: nat, i: nat)
    ensures i in Edges(kinds, k) <==> i < |kinds| && kinds[i] == k
    decreases |kinds|
  {
    if kinds != [] { EdgesMember(kinds[..|kinds| - 1], k, i); }
  }

  /** Setting the classes one after the other sets every edge. */
  ghost predicate SetSoFar(t: Table, t': Table, b: Node, kinds: seq<nat>, w: seq<nat>, k: nat)
    requires |w| == 3
  {
    && OthersKept(t, t', b)
    && forall i {:trigger kinds[i]} :: 0 <= i < |kinds| && kinds[i] < k && kinds[i] < 3 ==>
         (b, i) in t' && t'[(b, i)] == w[kinds[i]]
  }

  lemma AllSet(t: Table, t': Table, b: Node, kinds: seq<nat>, w: seq<nat>)
    requires |w| == 3 && Classes(kinds, 3) && SetSoFar(t, t', b, kinds, w, 3)
    ensures Written(t, t', b, ByClass(kinds, w))
  {
    forall i | 0 <= i < |kinds| ensures (b, i) in t' && t'[(b, i)] == ByClass(kinds, w)[i] {
      assert kinds[i] < 3;
    }
  }

  // ----- Sets of blocks -----

  predicate AllIn(b: Block, s: set<Node>) { forall i {:trigger b.succs[i]} :: 0 <= i < |b.succs| ==> b.succs[i] in s }

  /** Each member ends in unreachable, or all its successors are members. */
  ghost predicate LeadsToUnreachable(cfg: map<Node, Block>, s: set<Node>) {
    forall b {:trigger b in s} :: b in s ==>
      b in cfg && (if cfg[b].succs == [] then cfg[b].term.Unreachable? else AllIn(cfg[b], s))
  }

  /** Each member has successors, and has a cold call, or all its successors are members. */
  ghost predicate LeadsToCold(cfg: map<Node, Block>, s: set<Node>) {
    forall b {:trigger b in s} :: b in s ==>
      b in cfg && cfg[b].succs != [] && (cfg[b].coldCall || AllIn(cfg[b], s))
  }

  ghost predicate Path(cfg: map<Node, Block>, p: seq<Node>) {
    p != [] && (forall i {:trigger p[i]} :: 0 <= i < |p| ==> p[i] in cfg)
    && forall i {:trigger p[i]} :: 0 < i < |p| ==> p[i] in cfg[p[i - 1]].succs
  }

  /** From a member, a path that ends without successors ends in unreachable. */
  lemma {:induction false} PathsEndUnreachable(cfg: map<Node, Block>, s: set<Node>, p: seq<Node>)
    requires LeadsToUnreachable(cfg, s) && Path(cfg, p) && p[0] in s
    ensures p[|p| - 1] in s
    ensures cfg[p[|p| - 1]].succs == [] ==> cfg[p[|p| - 1]].term.Unreachable?
    decreases |p|
  {
    if |p| > 1 {
      var q := p[..|p| - 1];
      assert forall i {:trigger q[i]} :: 0 <= i < |q| ==> q[i] == p[i];
      assert Path(cfg, q) by {
        forall i | 0 < i < |q| ensures q[i] in cfg[q[i - 1]].succs { assert p[i] in cfg[p[i - 1]].succs; }
      }
      PathsEndUnreachable(cfg, s, q);
      assert p[|p| - 1] in cfg[p[|p| - 1 - 1]].succs;
    }
  }

  /** The set after looking at a block. */
  function UnreachableAfter(b: Node, block: Block, s: set<Node>): set<Node> {
    if block.succs == [] then (if block.term.Unreachable? then s + {b} else s)
    else if AllIn(block, s) then s + {b} else s
  }

  function ColdAfter(b: Node, block: Block, s: set<Node>): set<Node> {
    if block.succs == [] then s else if AllIn(block, s) || block.coldCall then s + {b} else s
  }

  lemma StillLeads(cfg: map<Node, Block>, b: Node, s: set<Node>, c: set<Node>)
    requires b in cfg && LeadsToUnreachable(cfg, s) && LeadsToCold(cfg, c)
    ensures LeadsToUnreachable(cfg, UnreachableAfter(b, cfg[b], s)) && LeadsToCold(cfg, ColdAfter(b, cfg[b], c))
  {
  }

  /** The two sets, as far as the walk has come. */
  datatype Seen = Seen(unreachable: set<Node>, cold: set<Node>)

  /** Cold calls are looked at only if nothing before has decided. */
  function Looked(b: Node, block: Block, s: Seen): Seen {
    Seen(UnreachableAfter(b, block, s.unreachable),
         if UnreachableWeights(block, s.unreachable).Some? || MetadataWeights(block).Some? then s.cold
         else ColdAfter(b, block, s.cold))
  }

  function SeenAfter(cfg: map<Node, Block>, order: seq<Node>): Seen {
    if order == [] then Seen({}, {})
    else
      var s, b := SeenAfter(cfg, order[..|order| - 1]), order[|order| - 1];
      if b in cfg then Looked(b, cfg[b], s) else s
  }

  lemma SeenNext(cfg: map<Node, Block>, order: seq<Node>, k: nat)
    requires k < |order| && order[k] in cfg
    ensures SeenAfter(cfg, order[..k + 1]) == Looked(order[k], cfg[order[k]], SeenAfter(cfg, order[..k]))
  {
    assert order[..k + 1][..k] == order[..k];
  }

  /** The sets hold only blocks that do lead where they are said to lead. */
  lemma {:induction false} SeenLeads(cfg: map<Node, Block>, order: seq<Node>)
    ensures LeadsToUnreachable(cfg, SeenAfter(cfg, order).unreachable) && LeadsToCold(cfg, SeenAfter(cfg, order).cold)
    decreases |order|
  {
    hide LeadsToUnreachable, LeadsToCold, UnreachableAfter, ColdAfter, UnreachableWeights, MetadataWeights;
    if order == [] {
      NothingLeads(cfg);
    } else {
      SeenLeads(cfg, order[..|order| - 1]);
      var s, b := SeenAfter(cfg, order[..|order| - 1]), order[|order| - 1];
      if b in cfg { StillLeads(cfg, b, s.unreachable, s.cold); }
    }
  }

  lemma NothingLeads(cfg: map<Node, Block>)
    ensures LeadsToUnreachable(cfg, {}) && LeadsToCold(cfg, {})
  {
  }

  lemma {:induction false} SeenStays(cfg: map<Node, Block>, order: seq<Node>, k: nat)
    requires k <= |order|
    ensures SeenAfter(cfg, order[..k]).unreachable <= SeenAfter(cfg, order).unreachable
    decreases |order|
  {
    hide UnreachableWeights, MetadataWeights;
    if k == |order| {
      assert order[..k] == order;
    } else {
      assert order[..|order| - 1][..k] == order[..k];
      SeenStays(cfg, order[..|order| - 1], k);
    }
  }

  ghost predicate SuccessorsFirst(cfg: map<Node, Block>, order: seq<Node>) {
    forall k {:trigger order[k]} :: 0 <= k < |order| ==> order[k] in cfg && FromBefore(cfg[order[k]], order[..k])
  }

  predicate FromBefore(b: Block, before: seq<Node>) {
    forall i {:trigger b.succs[i]} :: 0 <= i < |b.succs| ==> b.succs[i] in before
  }

  ghost predicate EndsReachable(cfg: map<Node, Block>, p: seq<Node>) {
    Path(cfg, p) && cfg[p[|p| - 1]].succs == [] && !cfg[p[|p| - 1]].term.Unreachable?
  }

  /** A block that was not put in the set has a path to an end that is not unreachable. */
  lemma {:induction false} WayOut(cfg: map<Node, Block>, order: seq<Node>, k: nat) returns (p: seq<Node>)
    requires SuccessorsFirst(cfg, order) && k < |order| && order[k] !in SeenAfter(cfg, order).unreachable
    ensures EndsReachable(cfg, p) && p[0] == order[k]
    decreases k
  {
    hide UnreachableWeights, MetadataWeights, SeenAfter;
    var b, before := order[k], order[..k];
    SeenStays(cfg, order, k);
    SeenStays(cfg, order, k + 1);
    SeenNext(cfg, order, k);
    if cfg[b].succs == [] {
      p := [b];
      assert EndsReachable(cfg, p);
    } else {
      assert FromBefore(cfg[b], before);
      var i :| 0 <= i < |cfg[b].succs| && cfg[b].succs[i] !in SeenAfter(cfg, before).unreachable;
      var m :| 0 <= m < k && before[m] == cfg[b].succs[i];
      assert SuccessorsFirst(cfg, before) by {
        forall n | 0 <= n < k ensures before[n] in cfg && FromBefore(cfg[before[n]], before[..n]) {
          assert before[n] == order[n] && before[..n] == order[..n];
        }
      }
      var q := WayOut(cfg, before, m);
      p := [b] + q;
      LongerWay(cfg, b, q);
    }
  }

  lemma LongerWay(cfg: map<Node, Block>, b: Node, q: seq<Node>)
    requires EndsReachable(cfg, q) && b in cfg && q[0] in cfg[b].succs
    ensures EndsReachable(cfg, [b] + q)
  {
    var p := [b] + q;
    forall i | 0 < i < |p| ensures p[i] in cfg[p[i - 1]].succs {
      if i > 1 { assert q[i - 1] in cfg[q[i - 2]].succs; }
    }
  }

  /** Where no edge leads back, the set has exactly the blocks from which all ways out end in unreachable. */
  lemma UnreachableExact(cfg: map<Node, Block>, order: seq<Node>, b: Node)
    requires SuccessorsFirst(cfg, order) && b in order
    ensures b in SeenAfter(cfg, order).unreachable <==> forall p {:trigger Path(cfg, p)} :: Path(cfg, p) && p[0] == b ==> !EndsReachable(cfg, p)
  {
    hide SeenAfter;
    var k :| 0 <= k < |order| && order[k] == b;
    if b in SeenAfter(cfg, order).unreachable {
      SeenLeads(cfg, order);
      forall p | Path(cfg, p) && p[0] == b ensures !EndsReachable(cfg, p) {
        PathsEndUnreachable(cfg, SeenAfter(cfg, order).unreachable, p);
      }
    } else {
      var p := WayOut(cfg, order, k);
      assert Path(cfg, p);
    }
  }

  /** All edges are of class 0 exactly when all successors are in the set. */
  lemma {:induction false} AllOfClass(c: seq<nat>)
    requires Classes(c, 3) && forall i {:trigger c[i]} :: 0 <= i < |c| ==> c[i] < 2
    ensures |Edges(c, 0)| == |c| <==> forall i {:trigger c[i]} :: 0 <= i < |c| ==> c[i] == 0
    ensures |Edges(c, 0)| + |Edges(c, 1)| == |c|
    ensures |Edges(c, 0)| <= |c|
    decreases |c|
  {
    if c != [] {
      var init := c[..|c| - 1];
      assert forall i {:trigger init[i]} :: 0 <= i < |init| ==> init[i] == c[i];
      AllOfClass(init);
    }
  }

  // ----- The cascade -----

  /** The first heuristic that has anything to say decides. */
  function Decision(b: Block, s: set<Node>, c: set<Node>, l: Option<Loop>): Option<seq<nat>> {
    if UnreachableWeights(b, s).Some? then UnreachableWeights(b, s)
    else if MetadataWeights(b).Some? then MetadataWeights(b)
    else if ColdWeights(b, c).Some? then ColdWeights(b, c)
    else if LoopWeights(b, l).Some? then LoopWeights(b, l)
    else if PointerWeights(b).Some? then PointerWeights(b)
    else if ZeroWeights(b).Some? then ZeroWeights(b)
    else if FloatWeights(b).Some? then FloatWeights(b)
    else InvokeWeights(b)
  }

  function Decided(b: Block, s: set<Node>, c: set<Node>, l: Option<Loop>): seq<nat> {
    match Decision(b, s, c, l)
    case Some(ws) => ws
    case None => DefaultWeights(|b.succs|)
  }

  lemma DecidedFits(b: Block, s: set<Node>, c: set<Node>, l: Option<Loop>)
    requires WellFormed(b) && |b.succs| <= MAX_SUCCESSORS
    ensures Fits(Decided(b, s, c, l)) && |Decided(b, s, c, l)| == |b.succs|
  {
    hide UnreachableWeights, MetadataWeights, ColdWeights, LoopWeights, Fits, Sum;
    if UnreachableWeights(b, s).Some? { UnreachableFits(b, s); }
    if MetadataWeights(b).Some? { MetadataFits(b); }
    if ColdWeights(b, c).Some? { ColdFits(b, c); }
    if LoopWeights(b, l).Some? { LoopFits(b, l); }
    PairFits(LIKELY_WEIGHT, UNLIKELY_WEIGHT);
    PairFits(UNLIKELY_WEIGHT, LIKELY_WEIGHT);
    PairFits(IH_TAKEN_WEIGHT, IH_NONTAKEN_WEIGHT);
    DefaultFits(|b.succs|);
  }

  // ----- Probabilities -----

  function Probability(w: nat, total: nat): real
    requires total > 0
  {
    w as real / total as real
  }

  function ProbabilitySum(ws: seq<nat>, total: nat): real
    requires total > 0
  {
    if ws == [] then 0.0 else ProbabilitySum(ws[..|ws| - 1], total) + Probability(ws[|ws| - 1], total)
  }

  lemma {:induction false} ProbabilitySumIs(ws: seq<nat>, total: nat)
    requires total > 0
    ensures ProbabilitySum(ws, total) == Sum(ws) as real / total as real
    decreases |ws|
  {
    if ws != [] {
      ProbabilitySumIs(ws[..|ws| - 1], total);
      AddFractions(Sum(ws[..|ws| - 1]) as real, ws[|ws| - 1] as real, total as real);
    }
  }

  lemma AddFractions(a: real, b: real, t: real)
    requires t > 0.0
    ensures a / t + b / t == (a + b) / t
  {
  }

  lemma {:induction false} SumAtLeast(ws: seq<nat>, i: nat)
    requires Positive(ws) && i < |ws|
    ensures Sum(ws) >= ws[i] + (|ws| - 1)
    decreases |ws|
  {
    var init := ws[..|ws| - 1];
    assert forall j {:trigger init[j]} :: 0 <= j < |init| ==> init[j] == ws[j];
    if i < |init| { SumAtLeast(init, i); } else if init != [] { SumAtLeast(init, 0); }
  }

  /** The probabilities of the edges out of a block are positive and sum to exactly one; only a single edge has one. */
  lemma ProbabilitiesSumToOne(ws: seq<nat>)
    requires Fits(ws) && ws != []
    ensures Sum(ws) > 0 && ProbabilitySum(ws, Sum(ws)) == 1.0
    ensures forall i {:trigger ws[i]} :: 0 <= i < |ws| ==> 0.0 < Probability(ws[i], Sum(ws)) <= 1.0 && (Probability(ws[i], Sum(ws)) == 1.0 <==> |ws| == 1)
  {
    hide Sum;
    SumAtLeast(ws, 0);
    ProbabilitySumIs(ws, Sum(ws));
    forall i | 0 <= i < |ws|
      ensures 0.0 < Probability(ws[i], Sum(ws)) <= 1.0 && (Probability(ws[i], Sum(ws)) == 1.0 <==> |ws| == 1)
    {
      SumAtLeast(ws, i);
      if |ws| == 1 { SumOfOne(ws); }
      Fraction(ws[i], Sum(ws));
    }
  }

  lemma SumOfOne(ws: seq<nat>)
    requires |ws| == 1
    ensures Sum(ws) == ws[0]
  {
    assert ws[..0] == [];
  }

  lemma Fraction(w: nat, total: nat)
    requires 0 < w <= total
    ensures 0.0 < Probability(w, total) <= 1.0 && (Probability(w, total) == 1.0 <==> w == total)
  {
    var q, x, y := Probability(w, total), w as real, total as real;
    assert q * y == x;
    Quotient(q, x, y);
    assert x == y <==> w == total;
  }

  lemma Quotient(q: real, x: real, y: real)
    requires 0.0 < x <= y && q * y == x
    ensures 0.0 < q <= 1.0 && (q == 1.0 <==> x == y)
  {
    assert -q * y == -x;
    if q <= 0.0 { NonnegativeProduct(-q, y); }
    if q > 1.0 { PositiveProduct(q - 1.0, y); }
    if q < 1.0 { PositiveProduct(1.0 - q, y); }
  }

  lemma NonnegativeProduct(d: real, y: real)
    requires d >= 0.0 && y > 0.0
    ensures d * y >= 0.0
  {
  }

  lemma PositiveProduct(d: real, y: real)
    requires d > 0.0 && y > 0.0
    ensures d * y > 0.0
  {
  }
}
