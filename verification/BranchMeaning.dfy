/** Which edges are the likely ones, told by where they lead and what the comparison means, not by weights. */
module BranchMeaning {
  import opened Options
  import opened BranchWeights
  import opened BranchProbability

  // ----- When a heuristic speaks -----

  /** Some successor, of several, is in the set. */
  predicate Split(b: Block, s: set<Node>) { |b.succs| > 1 && exists i {:trigger b.succs[i]} :: 0 <= i < |b.succs| && b.succs[i] in s }

  /** There is a usable weight for every edge. */
  predicate Profiled(b: Block) {
    && |b.succs| != 1 && (b.term.Branch? || b.term.CondBranch? || b.term.Switch?)
    && b.prof.Some? && |b.prof.value| == |b.succs|
    && forall i {:trigger b.prof.value[i]} :: 0 <= i < |b.prof.value| ==> b.prof.value[i].Some?
  }

  /** No heuristic that comes before the comparison has anything to say. */
  predicate Undecided(b: Block, s: set<Node>, c: set<Node>, l: Option<Loop>) {
    !Split(b, s) && !Profiled(b) && !Split(b, c) && l.None?
  }

  /** Every edge of the first kind is strictly lighter than every edge of the second. */
  ghost predicate Lighter(ws: seq<nat>, first: nat -> bool, second: nat -> bool) {
    forall i: nat, j: nat {:trigger ws[i], ws[j]} :: i < |ws| && j < |ws| && first(i) && second(j) ==> ws[i] < ws[j]
  }

  lemma {:induction false} NoEdgesOf(kinds: seq<nat>, k: nat)
    ensures Edges(kinds, k) == [] <==> forall i {:trigger kinds[i]} :: 0 <= i < |kinds| ==> kinds[i] != k
    decreases |kinds|
  {
    if kinds != [] {
      var init := kinds[..|kinds| - 1];
      assert forall i {:trigger init[i]} :: 0 <= i < |init| ==> init[i] == kinds[i];
      NoEdgesOf(init, k);
      if kinds[|kinds| - 1] != k {
        assert forall i {:trigger kinds[i]} :: 0 <= i < |kinds| - 1 ==> kinds[i] == init[i];
      }
    }
  }

  lemma SplitWhen(b: Block, s: set<Node>)
    ensures Split(b, s) <==> |b.succs| > 1 && Edges(BySet(b, s), 0) != []
    ensures UnreachableWeights(b, s).Some? <==> Split(b, s)
    ensures ColdWeights(b, s).Some? <==> Split(b, s)
  {
    hide Edges, Share;
    NoEdgesOf(BySet(b, s), 0);
    if Split(b, s) {
      var i :| 0 <= i < |b.succs| && b.succs[i] in s;
      assert BySet(b, s)[i] == 0;
    }
  }

  lemma ProfiledWhen(b: Block)
    ensures MetadataWeights(b).Some? <==> Profiled(b)
  {
  }

  lemma ShareBetween(total: nat, n: nat, low: nat)
    requires n > 0
    ensures low <= Share(total, n, low) <= if low >= total then low else total
  {
    hide Share;
    ShareAtMost(total, n, low);
  }

  // ----- What each heuristic makes likely -----

  lemma UnreachableUnlikely(b: Block, s: set<Node>, c: set<Node>, l: Option<Loop>)
    requires Split(b, s)
    ensures Lighter(Decided(b, s, c, l), (i: nat) => i < |b.succs| && b.succs[i] in s, (j: nat) => j < |b.succs| && b.succs[j] !in s)
  {
    hide Edges, Share;
    SplitWhen(b, s);
    ShareAtMost(UR_TAKEN_WEIGHT, |Edges(BySet(b, s), 0)|, MIN_WEIGHT);
  }

  /** An explicit weight is kept if it is not zero and every edge could have it. */
  lemma ProfileFollowed(b: Block, s: set<Node>, c: set<Node>, l: Option<Loop>, i: nat, j: nat)
    requires !Split(b, s) && Profiled(b) && i < |b.succs| && j < |b.succs|
    ensures var ws := Decided(b, s, c, l); var x, y := b.prof.value[i].value, b.prof.value[j].value;
            && |ws| == |b.succs| && (x <= y ==> ws[i] <= ws[j])
            && (1 <= x && x * |b.succs| <= UINT32_MAX ==> ws[i] == x)
  {
    hide Edges, Share, UnreachableWeights;
    SplitWhen(b, s);
    ProfiledWhen(b);
    var x := b.prof.value[i].value;
    if x * |b.succs| <= UINT32_MAX { AtMostQuotient(x, |b.succs|, UINT32_MAX); }
  }

  lemma AtMostQuotient(x: nat, n: nat, total: nat)
    requires n > 0 && x * n <= total
    ensures x <= total / n
  {
    NextMultiple(total, n);
    if x >= total / n + 1 { MulAtLeast(x, total / n + 1, n); }
  }

  lemma NextMultiple(total: nat, n: nat)
    requires n > 0
    ensures (total / n + 1) * n > total
  {
    var q, r := total / n, total % n;
    assert total == q * n + r;
    OneMore(q, n);
  }

  lemma MulAtLeast(x: nat, y: nat, n: nat)
    requires x >= y
    ensures x * n >= y * n
  {
    assert (x - y) * n >= 0;
    assert x * n == (x - y) * n + y * n;
  }

  lemma ColdUnlikely(b: Block, s: set<Node>, c: set<Node>, l: Option<Loop>)
    requires !Split(b, s) && !Profiled(b) && Split(b, c)
    ensures Lighter(Decided(b, s, c, l), (i: nat) => i < |b.succs| && b.succs[i] in c, (j: nat) => j < |b.succs| && b.succs[j] !in c)
  {
    hide Edges, Share, UnreachableWeights, MetadataWeights;
    SplitWhen(b, s);
    SplitWhen(b, c);
    ProfiledWhen(b);
    ShareAtMost(CC_TAKEN_WEIGHT, |Edges(BySet(b, c), 0)|, MIN_WEIGHT);
  }

  /** Leaving the loop is less likely than staying. */
  lemma ExitUnlikely(b: Block, s: set<Node>, c: set<Node>, l: Loop)
    requires !Split(b, s) && !Profiled(b) && !Split(b, c)
    ensures Lighter(Decided(b, s, c, Some(l)), (i: nat) => i < |b.succs| && b.succs[i] !in l.body, (j: nat) => j < |b.succs| && b.succs[j] in l.body)
  {
    hide Edges, Share, UnreachableWeights, MetadataWeights, ColdWeights;
    SplitWhen(b, s);
    SplitWhen(b, c);
    ProfiledWhen(b);
    ShareAtMost(LBH_NONTAKEN_WEIGHT, |Edges(LoopClass(b, l), 2)|, MIN_WEIGHT);
  }

  /** What comes last: the comparison, the invoke, or nothing. */
  lemma ComparisonDecides(b: Block, s: set<Node>, c: set<Node>, l: Option<Loop>)
    requires Undecided(b, s, c, l)
    ensures var ws := Decided(b, s, c, l);
            && (PointerWeights(b).Some? ==> ws == PointerWeights(b).value)
            && (ZeroWeights(b).Some? ==> ws == ZeroWeights(b).value)
            && (FloatWeights(b).Some? ==> ws == FloatWeights(b).value)
            && (b.term.Invoke? ==> ws == InvokeWeights(b).value)
            && (PointerWeights(b).None? && ZeroWeights(b).None? && FloatWeights(b).None? && !b.term.Invoke? ==>
                  ws == DefaultWeights(|b.succs|))
  {
    hide UnreachableWeights, MetadataWeights, ColdWeights;
    SplitWhen(b, s);
    SplitWhen(b, c);
    ProfiledWhen(b);
  }

  /** A comparison of pointers for being unequal, or equal. */
  predicate PointersHold(ne: bool, equal: bool) { ne != equal }

  lemma DifferentPointersLikely(b: Block, s: set<Node>, c: set<Node>, l: Option<Loop>)
    requires Undecided(b, s, c, l) && b.term.CondBranch? && b.term.cond.PointerEquality?
    ensures Favours(Decided(b, s, c, l), PointersHold(b.term.cond.ne, false))
  {
    hide Decided;
    ComparisonDecides(b, s, c, l);
  }

  /** The constants and comparisons for which there is a guess: with zero, and what is canonical for being at most or at least zero. */
  predicate Guessed(p: IntPred, y: int) { (y == 0 && p != OtherPred) || (y == 1 && p == SLT) || (y == -1 && p == SGT) }

  lemma PositiveLikely(b: Block, s: set<Node>, c: set<Node>, l: Option<Loop>, x: int, y: int)
    requires Undecided(b, s, c, l) && b.term.CondBranch? && b.term.cond.IntCompare?
    requires b.term.cond.rhs == Some(Rhs(y == 0, y == 1, y == -1)) && Guessed(b.term.cond.pred, y) && x > 0
    ensures Favours(Decided(b, s, c, l), IntHolds(b.term.cond.pred, x, y))
  {
    hide Decided;
    ComparisonDecides(b, s, c, l);
    PositiveIntegersLikely(b, x, y);
  }

  lemma NumbersLikely(b: Block, s: set<Node>, c: set<Node>, l: Option<Loop>, r: Order)
    requires Undecided(b, s, c, l) && b.term.CondBranch? && b.term.cond.FloatCompare? && b.term.cond.fpred != OtherFloat
    requires r in {Less, Greater}
    ensures Favours(Decided(b, s, c, l), FloatHolds(b.term.cond.fpred, r)) <==> b.term.cond.fpred != OEQ
  {
    hide Decided;
    ComparisonDecides(b, s, c, l);
    DifferentNumbersLikely(b, r);
  }

  /** The normal way on from an invoke is the likely one. */
  lemma UnwindUnlikely(b: Block, s: set<Node>, c: set<Node>, l: Option<Loop>)
    requires Undecided(b, s, c, l) && b.term.Invoke?
    ensures var ws := Decided(b, s, c, l); |ws| == 2 && ws[0] > ws[1]
  {
    hide Decided;
    ComparisonDecides(b, s, c, l);
  }

  /** Where nothing is guessed, all edges weigh the same. */
  lemma NothingGuessed(b: Block, s: set<Node>, c: set<Node>, l: Option<Loop>, i: nat, j: nat)
    requires Undecided(b, s, c, l) && !b.term.Invoke? && i < |b.succs| && j < |b.succs|
    requires b.term.CondBranch? ==>
               match b.term.cond
               case PointerEquality(_) => false
               case IntCompare(p, rhs) => rhs.None? || exists y {:trigger Guessed(p, y)} :: rhs == Some(Rhs(y == 0, y == 1, y == -1)) && !Guessed(p, y)
               case FloatCompare(p) => p == OtherFloat
               case OtherCond => true
    ensures |Decided(b, s, c, l)| == |b.succs| && Decided(b, s, c, l)[i] == Decided(b, s, c, l)[j]
  {
    hide Decided;
    ComparisonDecides(b, s, c, l);
  }

  // ----- Cold calls -----

  /** At no block does the walk stop before it looks for cold calls. */
  ghost predicate AllAsked(cfg: map<Node, Block>, order: seq<Node>) {
    forall k {:trigger order[k]} :: 0 <= k < |order| && order[k] in cfg ==>
      !Split(cfg[order[k]], SeenAfter(cfg, order[..k]).unreachable) && !Profiled(cfg[order[k]])
  }

  /** The path comes through a block that goes on and has a cold call. */
  predicate PassesCold(cfg: map<Node, Block>, p: seq<Node>) {
    exists i {:trigger p[i]} :: 0 <= i < |p| && p[i] in cfg && cfg[p[i]].coldCall && cfg[p[i]].succs != []
  }

  ghost predicate EndsWarm(cfg: map<Node, Block>, p: seq<Node>) {
    Path(cfg, p) && cfg[p[|p| - 1]].succs == [] && !PassesCold(cfg, p)
  }

  lemma PathTail(cfg: map<Node, Block>, p: seq<Node>)
    requires Path(cfg, p) && |p| > 1
    ensures Path(cfg, p[1..]) && p[1] in cfg[p[0]].succs && p[0] in cfg
    ensures PassesCold(cfg, p[1..]) ==> PassesCold(cfg, p)
  {
    var q := p[1..];
    assert forall i {:trigger q[i]} :: 0 <= i < |q| ==> q[i] == p[i + 1];
    forall i | 0 < i < |q| ensures q[i] in cfg[q[i - 1]].succs { assert p[i + 1] in cfg[p[i + 1 - 1]].succs; }
    assert p[1] in cfg[p[1 - 1]].succs;
  }

  /** From a member of the cold set, every path to an end comes through a cold call. */
  lemma {:induction false} PathsPassCold(cfg: map<Node, Block>, s: set<Node>, p: seq<Node>)
    requires LeadsToCold(cfg, s) && Path(cfg, p) && p[0] in s
    ensures !EndsWarm(cfg, p)
    decreases |p|
  {
    hide EndsWarm, PassesCold;
    if cfg[p[0]].coldCall {
      ColdStart(cfg, p);
    } else if |p| > 1 {
      PathTail(cfg, p);
      PathsPassCold(cfg, s, p[1..]);
      WarmTail(cfg, p);
    } else {
      OneBlock(cfg, p);
    }
  }

  lemma ColdStart(cfg: map<Node, Block>, p: seq<Node>)
    requires p != [] && p[0] in cfg && cfg[p[0]].coldCall && cfg[p[0]].succs != []
    ensures !EndsWarm(cfg, p)
  {
  }

  lemma WarmTail(cfg: map<Node, Block>, p: seq<Node>)
    requires Path(cfg, p) && |p| > 1 && !EndsWarm(cfg, p[1..])
    ensures !EndsWarm(cfg, p)
  {
    PathTail(cfg, p);
    assert p[1..][|p| - 2] == p[|p| - 1];
  }

  lemma OneBlock(cfg: map<Node, Block>, p: seq<Node>)
    requires |p| == 1 && p[0] in cfg && cfg[p[0]].succs != []
    ensures !EndsWarm(cfg, p)
  {
  }

  lemma ColdNext(cfg: map<Node, Block>, order: seq<Node>, k: nat)
    requires AllAsked(cfg, order) && k < |order| && order[k] in cfg
    ensures SeenAfter(cfg, order[..k + 1]).cold == ColdAfter(order[k], cfg[order[k]], SeenAfter(cfg, order[..k]).cold)
  {
    hide UnreachableWeights, MetadataWeights, Split, Profiled, SeenAfter, ColdAfter, UnreachableAfter;
    SeenNext(cfg, order, k);
    SplitWhen(cfg[order[k]], SeenAfter(cfg, order[..k]).unreachable);
    ProfiledWhen(cfg[order[k]]);
  }

  lemma {:induction false} ColdStays(cfg: map<Node, Block>, order: seq<Node>, k: nat)
    requires k <= |order|
    ensures SeenAfter(cfg, order[..k]).cold <= SeenAfter(cfg, order).cold
    decreases |order|
  {
    hide UnreachableWeights, MetadataWeights, UnreachableAfter;
    if k == |order| {
      assert order[..k] == order;
    } else {
      assert order[..|order| - 1][..k] == order[..k];
      ColdStays(cfg, order[..|order| - 1], k);
    }
  }

  /** A block that was not put in the cold set has a path to an end past no cold call. */
  lemma {:induction false} WarmWay(cfg: map<Node, Block>, order: seq<Node>, k: nat) returns (p: seq<Node>)
    requires SuccessorsFirst(cfg, order) && AllAsked(cfg, order) && k < |order| && order[k] !in SeenAfter(cfg, order).cold
    ensures EndsWarm(cfg, p) && p[0] == order[k]
    decreases k
  {
    hide UnreachableWeights, MetadataWeights, SeenAfter, Split, Profiled, AllAsked;
    var b, before := order[k], order[..k];
    ColdStays(cfg, order, k);
    ColdStays(cfg, order, k + 1);
    ColdNext(cfg, order, k);
    if cfg[b].succs == [] {
      p := [b];
      assert EndsWarm(cfg, p);
    } else {
      assert FromBefore(cfg[b], before);
      var i :| 0 <= i < |cfg[b].succs| && cfg[b].succs[i] !in SeenAfter(cfg, before).cold;
      var m :| 0 <= m < k && before[m] == cfg[b].succs[i];
      EarlierFirst(cfg, order, k);
      var q := WarmWay(cfg, before, m);
      p := [b] + q;
      LongerWarm(cfg, b, q);
    }
  }

  lemma EarlierFirst(cfg: map<Node, Block>, order: seq<Node>, k: nat)
    requires SuccessorsFirst(cfg, order) && AllAsked(cfg, order) && k <= |order|
    ensures SuccessorsFirst(cfg, order[..k]) && AllAsked(cfg, order[..k])
  {
    hide Split, Profiled, SeenAfter;
    var before := order[..k];
    forall n | 0 <= n < k
      ensures before[n] in cfg && FromBefore(cfg[before[n]], before[..n])
      ensures !Split(cfg[before[n]], SeenAfter(cfg, before[..n]).unreachable) && !Profiled(cfg[before[n]])
    {
      assert before[n] == order[n] && before[..n] == order[..n];
    }
  }

  lemma LongerWarm(cfg: map<Node, Block>, b: Node, q: seq<Node>)
    requires EndsWarm(cfg, q) && b in cfg && q[0] in cfg[b].succs && !cfg[b].coldCall
    ensures EndsWarm(cfg, [b] + q)
  {
    var p := [b] + q;
    LongerPath(cfg, b, q);
    assert forall i {:trigger p[i]} :: 0 < i < |p| ==> p[i] == q[i - 1];
  }

  lemma LongerPath(cfg: map<Node, Block>, b: Node, q: seq<Node>)
    requires Path(cfg, q) && b in cfg && q[0] in cfg[b].succs
    ensures Path(cfg, [b] + q) && ([b] + q)[|q|] == q[|q| - 1]
  {
    var p := [b] + q;
    forall i {:trigger p[i]} | 0 < i < |p| ensures p[i] in cfg && p[i] in cfg[p[i - 1]].succs {
      assert p[i] == q[i - 1];
      if i > 1 { assert p[i - 1] == q[i - 1 - 1] && q[i - 1] in cfg[q[i - 1 - 1]].succs; }
    }
  }

  /** Where no edge leads back and nothing else decides first, the cold set has exactly the blocks from which every way to
      an end comes through a cold call in a block that goes on. */
  lemma ColdExact(cfg: map<Node, Block>, order: seq<Node>, b: Node)
    requires SuccessorsFirst(cfg, order) && AllAsked(cfg, order) && b in order
    ensures b in SeenAfter(cfg, order).cold <==> forall p {:trigger Path(cfg, p)} :: Path(cfg, p) && p[0] == b ==> !EndsWarm(cfg, p)
  {
    hide SeenAfter, EndsWarm, AllAsked;
    var k :| 0 <= k < |order| && order[k] == b;
    if b in SeenAfter(cfg, order).cold {
      SeenLeads(cfg, order);
      forall p | Path(cfg, p) && p[0] == b ensures !EndsWarm(cfg, p) {
        PathsPassCold(cfg, SeenAfter(cfg, order).cold, p);
      }
    } else {
      var p := WarmWay(cfg, order, k);
      WarmIsPath(cfg, p);
    }
  }

  lemma WarmIsPath(cfg: map<Node, Block>, p: seq<Node>)
    requires EndsWarm(cfg, p)
    ensures Path(cfg, p)
  {
  }

  // ----- All of it -----

  /** What the weights of a block say, in the order in which the heuristics are asked. */
  ghost predicate Meaningful(b: Block, s: set<Node>, c: set<Node>, l: Option<Loop>, ws: seq<nat>) {
    var inS := (i: nat) => i < |b.succs| && b.succs[i] in s;
    var outS := (i: nat) => i < |b.succs| && b.succs[i] !in s;
    var inC := (i: nat) => i < |b.succs| && b.succs[i] in c;
    var outC := (i: nat) => i < |b.succs| && b.succs[i] !in c;
    if Split(b, s) then Lighter(ws, inS, outS)
    else if Profiled(b) then FollowsProfile(b, ws)
    else if Split(b, c) then Lighter(ws, inC, outC)
    else if l.Some? then Lighter(ws, (i: nat) => i < |b.succs| && b.succs[i] !in l.value.body, (i: nat) => i < |b.succs| && b.succs[i] in l.value.body)
    else ComparesRight(b, ws)
  }

  ghost predicate FollowsProfile(b: Block, ws: seq<nat>) {
    |ws| == |b.succs| && b.prof.Some? && |b.prof.value| == |b.succs| &&
    forall i: nat, j: nat {:trigger ws[i], ws[j]} :: i < |ws| && j < |ws| && b.prof.value[i].Some? && b.prof.value[j].Some? ==>
      var x, y := b.prof.value[i].value, b.prof.value[j].value;
      (x <= y ==> ws[i] <= ws[j]) && (1 <= x && x * |b.succs| <= UINT32_MAX ==> ws[i] == x)
  }

  /** Different pointers, positive integers, and different numbers except on ordered equality, take the heavier edge, and
      so does an invoke that returns. */
  ghost predicate ComparesRight(b: Block, ws: seq<nat>) {
    match b.term
    case Invoke => |ws| == 2 && ws[0] > ws[1]
    case CondBranch(PointerEquality(ne)) => Favours(ws, PointersHold(ne, false))
    case CondBranch(IntCompare(p, rhs)) =>
      forall x, y {:trigger Guessed(p, y), IsPositive(x)} :: rhs == Some(Rhs(y == 0, y == 1, y == -1)) && Guessed(p, y) && IsPositive(x) ==>
        Favours(ws, IntHolds(p, x, y))
    case CondBranch(FloatCompare(p)) =>
      p != OtherFloat ==> forall r {:trigger FloatHolds(p, r)} :: r in {Less, Greater} ==> (Favours(ws, FloatHolds(p, r)) <==> p != OEQ)
    case _ => true
  }

  predicate IsPositive(x: int) { x > 0 }

  lemma AllMeaningful(b: Block, s: set<Node>, c: set<Node>, l: Option<Loop>)
    ensures Meaningful(b, s, c, l, Decided(b, s, c, l))
  {
    hide Decided, Favours;
    var ws := Decided(b, s, c, l);
    if Split(b, s) {
      UnreachableUnlikely(b, s, c, l);
    } else if Profiled(b) {
      ProfileRight(b, s, c, l);
    } else if Split(b, c) {
      ColdUnlikely(b, s, c, l);
    } else if l.Some? {
      ExitUnlikely(b, s, c, l.value);
    } else {
      ComparisonRight(b, s, c, l);
    }
  }

  lemma ProfileRight(b: Block, s: set<Node>, c: set<Node>, l: Option<Loop>)
    requires !Split(b, s) && Profiled(b)
    ensures FollowsProfile(b, Decided(b, s, c, l))
  {
    hide Decided, Split;
    ProfileLength(b, s, c, l);
    var ws := Decided(b, s, c, l);
    forall i: nat, j: nat | i < |ws| && j < |ws|
      ensures var x, y := b.prof.value[i].value, b.prof.value[j].value;
              (x <= y ==> ws[i] <= ws[j]) && (1 <= x && x * |b.succs| <= UINT32_MAX ==> ws[i] == x)
    {
      ProfileFollowed(b, s, c, l, i, j);
    }
  }

  lemma ProfileLength(b: Block, s: set<Node>, c: set<Node>, l: Option<Loop>)
    requires !Split(b, s) && Profiled(b)
    ensures |Decided(b, s, c, l)| == |b.succs|
  {
    hide UnreachableWeights;
    SplitWhen(b, s);
    ProfiledWhen(b);
  }

  lemma ComparisonRight(b: Block, s: set<Node>, c: set<Node>, l: Option<Loop>)
    requires Undecided(b, s, c, l)
    ensures ComparesRight(b, Decided(b, s, c, l))
  {
    hide Decided, Favours, Undecided, IntHolds, FloatHolds;
    var ws := Decided(b, s, c, l);
    match b.term
    case Invoke => UnwindUnlikely(b, s, c, l);
    case CondBranch(PointerEquality(ne)) => DifferentPointersLikely(b, s, c, l);
    case CondBranch(IntCompare(p, rhs)) =>
      forall x, y | rhs == Some(Rhs(y == 0, y == 1, y == -1)) && Guessed(p, y) && IsPositive(x) ensures Favours(ws, IntHolds(p, x, y)) {
        PositiveLikely(b, s, c, l, x, y);
      }
    case CondBranch(FloatCompare(p)) =>
      if p != OtherFloat {
        forall r | r in {Less, Greater} ensures Favours(ws, FloatHolds(p, r)) <==> p != OEQ { NumbersLikely(b, s, c, l, r); }
      }
    case _ =>
  }
}
