/** The lazy solver: a cache of facts, a work stack in place of recursion, and the clearing of facts when the
    control-flow graph changes. */
module LazyValueInfo {
  import opened Options
  import opened ConstantRange
  import opened Dominance
  import opened LviProgram
  import opened LviLattice
  import opened LviFacts
  import opened LviThreading
  import opened LviVisits

  /** Every pair on record is overdefined in the cache. The converse does not hold. */
  ghost predicate Recorded(cache: Cache, od: set<Key>) {
    forall k {:trigger k in od} :: k in od ==> k in cache && cache[k] == Overdefined
  }

  /** Every block with an entry has been seen, so that an unseen block can be skipped. */
  ghost predicate SeenAll(cache: Cache, seen: set<Node>) {
    forall k {:trigger k in cache} :: k in cache ==> k.b in seen
  }

  ghost predicate WorkOK(pr: Program, st: seq<Work>) {
    forall i {:trigger st[i]} :: 0 <= i < |st| ==> Live(pr, st[i].x, st[i].b)
  }

  /** The entries the solver could still have to compute. */
  ghost function Unsettled(pr: Program, cache: Cache): set<Key> {
    set v, b | v in pr.widths && b in pr.blocks && Open(cache, Key(v, b)) :: Key(v, b)
  }

  /** Entries are never lost, and settled ones never change. */
  ghost predicate Settles(old_: Cache, new_: Cache) {
    forall k {:trigger k in new_} {:trigger k in old_} :: k in old_ ==> k in new_ && (old_[k] != Undefined ==> new_[k] == old_[k])
  }

  lemma SettlesTrans(a: Cache, b: Cache, c: Cache)
    requires Settles(a, b) && Settles(b, c)
    ensures Settles(a, c)
  {
    forall k | k in a ensures k in c && (a[k] != Undefined ==> c[k] == a[k]) {
      assert k in b;
    }
  }

  lemma UnsettledShrinks(pr: Program, a: Cache, b: Cache)
    requires Settles(a, b)
    ensures Unsettled(pr, b) <= Unsettled(pr, a)
  {
    forall k | k in Unsettled(pr, b) ensures k in Unsettled(pr, a) {
      assert k in a ==> k in b;
    }
  }

  lemma UnsettledLess(pr: Program, a: Cache, b: Cache, k: Key)
    requires Settles(a, b) && Open(a, k) && !Open(b, k) && k.v in pr.widths && k.b in pr.blocks
    ensures Unsettled(pr, b) < Unsettled(pr, a)
  {
    UnsettledShrinks(pr, a, b);
    assert k in Unsettled(pr, a) && k !in Unsettled(pr, b);
  }

  lemma StoreTrue(pr: Program, cache: Cache, k: Key, lv: LatticeVal)
    requires TrueCache(pr, cache) && Holds(pr, lv, Reg(k.v), k.b)
    ensures TrueCache(pr, cache[k := lv])
  {
  }

  lemma StoreRecorded(cache: Cache, od: set<Key>, k: Key, lv: LatticeVal)
    requires Recorded(cache, od) && (k in od ==> lv == Overdefined)
    ensures Recorded(cache[k := lv], od)
    ensures lv == Overdefined ==> Recorded(cache[k := lv], od + {k})
  {
  }

  lemma StoreSeen(cache: Cache, seen: set<Node>, k: Key, lv: LatticeVal)
    requires SeenAll(cache, seen) && k.b in seen
    ensures SeenAll(cache[k := lv], seen)
  {
  }

  lemma SeenMore(cache: Cache, seen: set<Node>, b: Node)
    requires SeenAll(cache, seen)
    ensures SeenAll(cache, seen + {b})
  {
  }

  lemma PredLive(pr: Program, v: Var, b: Node, k: nat)
    requires pr.Valid() && Live(pr, Reg(v), b) && !pr.DefinedIn(v, b) && b in pr.blocks && k < |pr.blocks[b].preds|
    ensures Live(pr, Reg(v), pr.blocks[b].preds[k])
  {
    assert pr.BlockOK(b) && pr.blocks[b].preds[k] in pr.blocks[b].preds;
    LivesInPred(pr, v, b, pr.blocks[b].preds[k]);
  }

  lemma MergeWidths(a: LatticeVal, b: LatticeVal, m: nat)
    requires a.Fits(m) && b.Fits(m)
    ensures a.ConstantRange? && b.ConstantRange? ==> a.range.Valid() && b.range.Valid() && a.range.m == b.range.m
  {
  }

  lemma MergeDefined(pr: Program, a: LatticeVal, er: LatticeVal, v: Var, b: Node, ps: set<Node>, p: Node)
    requires CoversFrom(pr, a, v, b, ps) && HoldsOnEdge(pr, er, Reg(v), p, b)
    ensures a.ConstantRange? && er.ConstantRange? ==> a.range.Valid() && er.range.Valid() && a.range.m == er.range.m
  {
  }

  lemma NoFroms(inc: seq<Incoming>)
    ensures FromsUpTo(inc, 0) == {}
  {
  }

  lemma SiteFacts(pr: Program, v: Var)
    requires pr.Valid() && v in pr.widths
    ensures v in pr.site && pr.SiteOK(v)
    ensures pr.site[v].BodySite? ==> InstrOf(pr, Reg(v)) == Some(pr.blocks[pr.site[v].block].body[pr.site[v].index].i)
  {
    assert pr.SiteOK(v);
  }

  lemma LiveFacts(pr: Program, v: Var, b: Node)
    requires Live(pr, Reg(v), b)
    ensures v in pr.widths && b in pr.blocks
  {
  }

  lemma NotRecorded(cache: Cache, od: set<Key>, k: Key)
    requires Recorded(cache, od) && Open(cache, k)
    ensures k !in od && Recorded(cache[k := Overdefined], od)
  {
  }

  /** Initial work is still on the stack or has been done, whatever one turn pushed or settled. */
  lemma StillThere(st0: seq<Work>, st: seq<Work>, a: Cache, b: Cache)
    requires Settles(a, b)
    ensures forall i {:trigger st0[i]} :: 0 <= i < |st0| && st0[i].x.Reg? && Key(st0[i].x.v, st0[i].b) in a ==>
              Key(st0[i].x.v, st0[i].b) in b
  {
  }

  lemma PredicateOnEdge(pr: Program, p: Pred, r: Range, x: Operand, c: int, from: Node, dest: Node)
    requires pr.Valid() && Live(pr, x, from) && InWidth(c, pr.OpMod(x)) && HoldsOnEdge(pr, ConstantRange(r), x, from, dest)
    ensures r.Valid()
    ensures var t := PredicateOfRange(p, r, c);
            forall q {:trigger EndsAt(pr, q, from)} :: EndsAt(pr, q, from) && pr.Goes(from, LastOrEmpty(q).env, dest) ==>
              && (t == True ==> Compare(p, pr.Val(x, LastOrEmpty(q).env), c, pr.OpMod(x)))
              && (t == False ==> !Compare(p, pr.Val(x, LastOrEmpty(q).env), c, pr.OpMod(x)))
  {
    hide PredicateOfRange, Compare;
    var t := PredicateOfRange(p, r, c);
    forall q | EndsAt(pr, q, from) && pr.Goes(from, LastOrEmpty(q).env, dest)
      ensures t == True ==> Compare(p, pr.Val(x, LastOrEmpty(q).env), c, pr.OpMod(x))
      ensures t == False ==> !Compare(p, pr.Val(x, LastOrEmpty(q).env), c, pr.OpMod(x))
    {
      LiveInRange(pr, x, from, q);
      EvenWidth(pr, x, from);
      PredicateRight(p, r, c, pr.Val(x, LastOrEmpty(q).env));
    }
  }

  lemma EvenWidth(pr: Program, x: Operand, b: Node)
    requires pr.Valid() && Live(pr, x, b)
    ensures pr.OpMod(x) % 2 == 0
  {
    if x.Reg? { EvenMod(pr, x.v); }
  }

  // ----- Threading an edge -----

  /** The recorded pairs of these values at b. */
  function MarksAt(od: set<Key>, clear: set<Var>, b: Node): set<Key> { set k | k in od && k.b == b && k.v in clear }

  function WithoutMarks(cache: Cache, gone: set<Key>): Cache { map k | k in cache && k !in gone :: cache[k] }

  lemma NoMarks(cache: Cache, od: set<Key>, b: Node)
    ensures MarksAt(od, {}, b) == {} && WithoutMarks(cache, {}) == cache
  {
  }

  lemma MoreMarks(cache: Cache, od: set<Key>, clear: set<Var>, v: Var, b: Node)
    ensures MarksAt(od, clear + {v}, b) == MarksAt(od, clear, b) + (if Key(v, b) in od then {Key(v, b)} else {})
    ensures WithoutMarks(WithoutMarks(cache, MarksAt(od, clear, b)), {Key(v, b)}) ==
            WithoutMarks(cache, MarksAt(od, clear, b) + {Key(v, b)})
  {
  }

  /** A path from oldSucc that avoids newSucc and all of whose blocks but the last have something to drop. */
  ghost predicate MarkedPath(pr: Program, od: set<Key>, clear: set<Var>, oldSucc: Node, newSucc: Node, p: seq<Node>) {
    && |p| > 0 && p[0] == oldSucc
    && (forall i {:trigger p[i]} :: 0 <= i < |p| ==> p[i] != newSucc)
    && forall i {:trigger p[i]} :: 0 < i < |p| ==> pr.Cfg().Edge(p[i - 1], p[i]) && !Clean(od, clear, p[i - 1])
  }

  ghost predicate Cleared(pr: Program, od: set<Key>, clear: set<Var>, oldSucc: Node, newSucc: Node, b: Node) {
    exists p :: MarkedPath(pr, od, clear, oldSucc, newSucc, p) && p[|p| - 1] == b
  }

  /** Everything that is to be dropped. */
  ghost function Gone(pr: Program, od: set<Key>, clear: set<Var>, oldSucc: Node, newSucc: Node): set<Key> {
    set k | k in od && k.v in clear && Cleared(pr, od, clear, oldSucc, newSucc, k.b)
  }

  /** A block that may be looked at: newSucc, or one reached by a marked path. */
  ghost predicate Candidate(pr: Program, od: set<Key>, clear: set<Var>, oldSucc: Node, newSucc: Node, b: Node) {
    b in pr.blocks && (b == newSucc || Cleared(pr, od, clear, oldSucc, newSucc, b))
  }

  ghost predicate Clean(od: set<Key>, clear: set<Var>, b: Node) { MarksAt(od, clear, b) == {} }

  /** Settled for good, or waiting. */
  ghost predicate Handled(od: set<Key>, clear: set<Var>, newSucc: Node, wl: seq<Node>, b: Node) {
    b == newSucc || b in wl || Clean(od, clear, b)
  }

  /** The walk: only candidates wait; whole blocks have been cleared; where one was, its successors are handled. */
  ghost predicate Walking(pr: Program, cache0: Cache, od0: set<Key>, clear: set<Var>, oldSucc: Node, newSucc: Node,
                          wl: seq<Node>, cache: Cache, od: set<Key>)
  {
    && pr.Cfg().Valid()
    && od <= od0 && cache == WithoutMarks(cache0, od0 - od)
    && od0 - od <= Gone(pr, od0, clear, oldSucc, newSucc)
    && (forall b {:trigger b in wl} :: b in wl ==> Candidate(pr, od0, clear, oldSucc, newSucc, b))
    && (forall b {:trigger Clean(od, clear, b)} :: Clean(od, clear, b) || MarksAt(od, clear, b) == MarksAt(od0, clear, b))
    && Handled(od, clear, newSucc, wl, oldSucc)
    && Followed(pr, od0, clear, newSucc, wl, od)
  }

  ghost predicate Followed(pr: Program, od0: set<Key>, clear: set<Var>, newSucc: Node, wl: seq<Node>, od: set<Key>) {
    forall b, s {:trigger pr.Cfg().Edge(b, s)} :: pr.Cfg().Edge(b, s) && !Clean(od0, clear, b) && Clean(od, clear, b) ==>
      Handled(od, clear, newSucc, wl, s)
  }

  lemma WalkStarts(pr: Program, cache: Cache, od: set<Key>, clear: set<Var>, oldSucc: Node, newSucc: Node)
    requires pr.Valid() && oldSucc in pr.blocks
    ensures Walking(pr, cache, od, clear, oldSucc, newSucc, [oldSucc], cache, od)
  {
    NoMarks(cache, od, oldSucc);
    assert od - od == {};
    if oldSucc != newSucc { assert MarkedPath(pr, od, clear, oldSucc, newSucc, [oldSucc]); }
  }

  lemma MarksShrink(od: set<Key>, clear: set<Var>, b: Node)
    ensures MarksAt(od, clear, b) != {} ==> |od - MarksAt(od, clear, b)| < |od|
    ensures MarksAt(od, clear, b) == {} ==> od - MarksAt(od, clear, b) == od
  {
    var m := MarksAt(od, clear, b);
    assert od == (od - m) + m;
    assert |od| == |od - m| + |m|;
  }

  lemma NothingDropped(cache: Cache, od: set<Key>, clear: set<Var>, b: Node)
    requires MarksAt(od, clear, b) == {}
    ensures WithoutMarks(cache, MarksAt(od, clear, b)) == cache && od - MarksAt(od, clear, b) == od
  {
  }

  lemma ClearedStep(pr: Program, od: set<Key>, clear: set<Var>, oldSucc: Node, newSucc: Node, b: Node, s: Node)
    requires Cleared(pr, od, clear, oldSucc, newSucc, b) && pr.Cfg().Edge(b, s) && !Clean(od, clear, b) && s != newSucc
    ensures Cleared(pr, od, clear, oldSucc, newSucc, s)
  {
    var p :| MarkedPath(pr, od, clear, oldSucc, newSucc, p) && p[|p| - 1] == b;
    var q := p + [s];
    forall i {:trigger q[i]} | 0 < i < |q| ensures pr.Cfg().Edge(q[i - 1], q[i]) && !Clean(od, clear, q[i - 1]) {
      if i < |p| { assert q[i] == p[i] && q[i - 1] == p[i - 1]; } else { assert q[i - 1] == b && q[i] == s; }
    }
    forall i | 0 <= i < |q| ensures q[i] != newSucc {
      if i < |p| { assert q[i] == p[i]; }
    }
    assert MarkedPath(pr, od, clear, oldSucc, newSucc, q) && q[|q| - 1] == s;
  }

  /** Dropping the marks of one block touches no other block's. */
  lemma OthersKept(od: set<Key>, clear: set<Var>, b: Node, c: Node)
    ensures var od' := od - MarksAt(od, clear, b);
            && MarksAt(od', clear, b) == {}
            && (c != b ==> MarksAt(od', clear, c) == MarksAt(od, clear, c))
            && (Clean(od, clear, c) ==> Clean(od', clear, c))
  {
  }

  /** One turn of the walk. The block on top is newSucc, or has nothing to drop, or is cleared and followed. */
  lemma WalkBlock(pr: Program, cache0: Cache, od0: set<Key>, clear: set<Var>, oldSucc: Node, newSucc: Node,
                  wl: seq<Node>, cache: Cache, od: set<Key>)
    requires Walking(pr, cache0, od0, clear, oldSucc, newSucc, wl, cache, od) && wl != []
    ensures var b := wl[|wl| - 1]; var rest := wl[..|wl| - 1];
            var m := MarksAt(od, clear, b);
            && b in pr.blocks
            && (b == newSucc || m == {} ==> Walking(pr, cache0, od0, clear, oldSucc, newSucc, rest, cache, od))
            && (b != newSucc && m != {} ==>
                  Walking(pr, cache0, od0, clear, oldSucc, newSucc, rest + pr.Targets(pr.blocks[b].term),
                          WithoutMarks(cache, m), od - m))
  {
    var b := wl[|wl| - 1];
    var rest := wl[..|wl| - 1];
    assert b in wl;
    assert forall x :: x in wl ==> x in rest || x == b;
    if b != newSucc && MarksAt(od, clear, b) != {} {
      WalkClears(pr, cache0, od0, clear, oldSucc, newSucc, wl, cache, od);
    } else {
      assert forall x {:trigger x in rest} :: x in rest ==> x in wl;
    }
  }

  lemma WalkClears(pr: Program, cache0: Cache, od0: set<Key>, clear: set<Var>, oldSucc: Node, newSucc: Node,
                   wl: seq<Node>, cache: Cache, od: set<Key>)
    requires Walking(pr, cache0, od0, clear, oldSucc, newSucc, wl, cache, od) && wl != []
    requires var b := wl[|wl| - 1]; b in pr.blocks && b != newSucc && MarksAt(od, clear, b) != {}
    ensures var b := wl[|wl| - 1]; var m := MarksAt(od, clear, b);
            Walking(pr, cache0, od0, clear, oldSucc, newSucc, wl[..|wl| - 1] + pr.Targets(pr.blocks[b].term),
                    WithoutMarks(cache, m), od - m)
  {
    var b := wl[|wl| - 1];
    var m := MarksAt(od, clear, b);
    var od' := od - m;
    var targets := pr.Targets(pr.blocks[b].term);
    var wl' := wl[..|wl| - 1] + targets;
    assert b in wl;
    assert !Clean(od, clear, b);
    assert MarksAt(od, clear, b) == MarksAt(od0, clear, b);
    ClearedGone(pr, od0, clear, oldSucc, newSucc, b);
    CacheShrinks(cache0, od0, od, m);
    forall x | x in wl' ensures Candidate(pr, od0, clear, oldSucc, newSucc, x) {
      if x in targets {
        assert pr.Cfg().Edge(b, x);
        TargetInGraph(pr, b, x);
        if x != newSucc { ClearedStep(pr, od0, clear, oldSucc, newSucc, b, x); }
      } else {
        assert x in wl;
      }
    }
    forall x ensures Clean(od', clear, x) || MarksAt(od', clear, x) == MarksAt(od0, clear, x) {
      OthersKept(od, clear, b, x);
      assert Clean(od, clear, x) || MarksAt(od, clear, x) == MarksAt(od0, clear, x);
    }
    OthersKept(od, clear, b, oldSucc);
    WalkFollows(pr, od0, clear, newSucc, wl, od);
  }

  lemma TargetInGraph(pr: Program, b: Node, x: Node)
    requires pr.Cfg().Valid() && b in pr.blocks && pr.Cfg().Edge(b, x)
    ensures x in pr.blocks
  {
    var k :| 0 <= k < |pr.Cfg().succs[b]| && pr.Cfg().succs[b][k] == x;
    assert pr.Cfg().succs[b][k] in pr.Cfg().succs;
  }

  lemma CacheShrinks(cache0: Cache, od0: set<Key>, od: set<Key>, m: set<Key>)
    requires od <= od0 && m <= od
    ensures WithoutMarks(WithoutMarks(cache0, od0 - od), m) == WithoutMarks(cache0, od0 - (od - m))
  {
  }

  lemma ClearedGone(pr: Program, od0: set<Key>, clear: set<Var>, oldSucc: Node, newSucc: Node, b: Node)
    requires Cleared(pr, od0, clear, oldSucc, newSucc, b)
    ensures MarksAt(od0, clear, b) <= Gone(pr, od0, clear, oldSucc, newSucc)
  {
  }

  lemma WalkFollows(pr: Program, od0: set<Key>, clear: set<Var>, newSucc: Node, wl: seq<Node>, od: set<Key>)
    requires wl != [] && Followed(pr, od0, clear, newSucc, wl, od) && wl[|wl| - 1] in pr.blocks
    ensures var b := wl[|wl| - 1];
            Followed(pr, od0, clear, newSucc, wl[..|wl| - 1] + pr.Targets(pr.blocks[b].term), od - MarksAt(od, clear, b))
  {
    var b := wl[|wl| - 1];
    var od' := od - MarksAt(od, clear, b);
    var targets := pr.Targets(pr.blocks[b].term);
    var wl' := wl[..|wl| - 1] + targets;
    forall c, s | pr.Cfg().Edge(c, s) && !Clean(od0, clear, c) && Clean(od', clear, c)
      ensures Handled(od', clear, newSucc, wl', s)
    {
      OthersKept(od, clear, b, c);
      OthersKept(od, clear, b, s);
      if c == b {
        assert s in targets;
      } else {
        assert Handled(od, clear, newSucc, wl, s);
        assert s in wl ==> s in wl[..|wl| - 1] || s == b;
      }
    }
  }

  lemma MarkedStep(pr: Program, od: set<Key>, clear: set<Var>, oldSucc: Node, newSucc: Node, p: seq<Node>, i: nat)
    requires MarkedPath(pr, od, clear, oldSucc, newSucc, p) && i < |p|
    ensures p[i] != newSucc && (i > 0 ==> pr.Cfg().Edge(p[i - 1], p[i]) && !Clean(od, clear, p[i - 1]))
  {
    hide Clean, Program.Cfg;
  }

  /** A marked path less its last block, q. */
  lemma MarkedPrefix(pr: Program, od: set<Key>, clear: set<Var>, oldSucc: Node, newSucc: Node, p: seq<Node>, q: seq<Node>)
    requires MarkedPath(pr, od, clear, oldSucc, newSucc, p) && |p| > 1 && q == p[..|p| - 1]
    ensures MarkedPath(pr, od, clear, oldSucc, newSucc, q)
    ensures pr.Cfg().Edge(q[|q| - 1], p[|q|]) && !Clean(od, clear, q[|q| - 1]) && p[|q|] != newSucc
  {
    hide Clean, Program.Cfg;
    MarkedStep(pr, od, clear, oldSucc, newSucc, p, |q|);
    assert q[|q| - 1] == p[|q| - 1];
    forall i: nat {:trigger q[i]} | i < |q|
      ensures q[i] != newSucc && (i > 0 ==> pr.Cfg().Edge(q[i - 1], q[i]) && !Clean(od, clear, q[i - 1]))
    {
      MarkedStep(pr, od, clear, oldSucc, newSucc, p, i);
      assert q[i] == p[i] && (i > 0 ==> q[i - 1] == p[i - 1]);
    }
    assert q[0] == p[0];
  }

  /** With nothing waiting, every block on a marked path is clean. */
  lemma {:induction false} PathClean(pr: Program, od0: set<Key>, clear: set<Var>, oldSucc: Node, newSucc: Node,
                                     od: set<Key>, p: seq<Node>)
    requires Handled(od, clear, newSucc, [], oldSucc) && Followed(pr, od0, clear, newSucc, [], od)
    requires MarkedPath(pr, od0, clear, oldSucc, newSucc, p)
    ensures Clean(od, clear, p[|p| - 1])
    decreases |p|
  {
    hide MarksAt, Clean, Program.Cfg, Followed, MarkedPath;
    var last := |p| - 1;
    PathStart(pr, od0, clear, oldSucc, newSucc, p);
    if last > 0 {
      var q := p[..last];
      MarkedPrefix(pr, od0, clear, oldSucc, newSucc, p, q);
      PathClean(pr, od0, clear, oldSucc, newSucc, od, q);
      StepClean(pr, od0, clear, newSucc, od, q[|q| - 1], p[last]);
    }
  }

  lemma PathStart(pr: Program, od: set<Key>, clear: set<Var>, oldSucc: Node, newSucc: Node, p: seq<Node>)
    requires MarkedPath(pr, od, clear, oldSucc, newSucc, p)
    ensures |p| > 0 && p[0] == oldSucc && oldSucc != newSucc
  {
  }

  lemma StepClean(pr: Program, od0: set<Key>, clear: set<Var>, newSucc: Node, od: set<Key>, b: Node, s: Node)
    requires Followed(pr, od0, clear, newSucc, [], od) && pr.Cfg().Edge(b, s) && s != newSucc
    requires !Clean(od0, clear, b) && Clean(od, clear, b)
    ensures Clean(od, clear, s)
  {
    hide MarksAt, Clean, Program.Cfg;
    assert Handled(od, clear, newSucc, [], s);
  }

  lemma WalkEnds(pr: Program, cache0: Cache, od0: set<Key>, clear: set<Var>, oldSucc: Node, newSucc: Node,
                 cache: Cache, od: set<Key>)
    requires Walking(pr, cache0, od0, clear, oldSucc, newSucc, [], cache, od)
    ensures var gone := Gone(pr, od0, clear, oldSucc, newSucc);
            od == od0 - gone && cache == WithoutMarks(cache0, gone)
  {
    var gone := Gone(pr, od0, clear, oldSucc, newSucc);
    forall k | k in gone ensures k !in od {
      var p :| MarkedPath(pr, od0, clear, oldSucc, newSucc, p) && p[|p| - 1] == k.b;
      PathClean(pr, od0, clear, oldSucc, newSucc, od, p);
      assert k in od ==> k in MarksAt(od, clear, k.b);
    }
    assert od0 - od == gone;
  }

  class LazyValueInfoCache {
    var pr: Program
    var ValueCache: Cache
    var OverDefinedCache: set<Key>
    var SeenBlocks: set<Node>
    var BlockValueStack: seq<Work>

    constructor (program: Program)
      ensures pr == program && ValueCache == map[] && OverDefinedCache == {} && BlockValueStack == []
    {
      pr, ValueCache, OverDefinedCache, SeenBlocks, BlockValueStack := program, map[], {}, {}, [];
    }

    /** The facts are true on all executions considered (pr.calls). If none is, this speaks of the records alone. */
    ghost predicate Valid()
      reads this
    {
      pr.Valid() && TrueCache(pr, ValueCache) && Recorded(ValueCache, OverDefinedCache) && SeenAll(ValueCache, SeenBlocks)
    }

    /** What the solver works on. */
    function State(): Solver
      reads this
    {
      Solver(ValueCache, OverDefinedCache, BlockValueStack)
    }

    predicate HasBlockValue(x: Operand, b: Node)
      reads this
    {
      x.Const? || Key(x.v, b) in ValueCache
    }

    method GetBlockValue(x: Operand, b: Node) returns (lv: LatticeVal)
      requires Valid() && Live(pr, x, b) && HasBlockValue(x, b)
      modifies `SeenBlocks
      ensures Valid() && Holds(pr, lv, x, b)
      ensures BlockFact(ValueCache, x, b) == Some(lv)
    {
      hide Holds, Live, Program.Valid, SeenAll;
      if x.Const? {
        ConstHolds(pr, x.c, x.width, b);
        return Get(x.c, Pow2(x.width));
      }
      SeenMore(ValueCache, SeenBlocks, b);
      SeenBlocks := SeenBlocks + {b};
      lv := ValueCache[Key(x.v, b)];
      assert Key(x.v, b) in ValueCache;
    }

    /** The fact about x on the edge, or false with the missing fact pushed as work. */
    method GetEdgeValue(x: Operand, from: Node, dest: Node) returns (ok: bool, result: LatticeVal)
      requires Valid() && Live(pr, x, from)
      modifies `SeenBlocks, `BlockValueStack
      ensures Valid()
      ensures ok ==> BlockValueStack == old(BlockValueStack) && HoldsOnEdge(pr, result, x, from, dest)
      ensures !ok ==> BlockValueStack == old(BlockValueStack) + [Work(from, x)] && !HasBlockValue(x, from)
      ensures ok <== HasBlockValue(x, from)
      ensures EdgeFact(pr, ValueCache, x, from, dest) == if ok then Some(result) else None
    {
      hide Holds, HoldsOnEdge, Program.Valid, TrueCache, EdgeValueLocal, SeenAll;
      ok, result := true, Undefined;
      if x.Const? {
        ConstHolds(pr, x.c, x.width, from);
        result := Get(x.c, Pow2(x.width));
        HoldsIsEdge(pr, result, x, from, dest);
        return;
      }
      var local := EdgeValueLocal(pr, x.v, from, dest);
      if local.Some? {
        result := local.value;
        LocalOnEdge(pr, x.v, from, dest);
        if !result.ConstantRange? || result.range.IsSingleElement() {
          return;
        }
        if !HasBlockValue(x, from) {
          BlockValueStack := BlockValueStack + [Work(from, x)];
          ok := false;
          return;
        }
        var inBlock := GetBlockValue(x, from);
        if !inBlock.ConstantRange? {
          return;
        }
        IntersectOnEdge(pr, result.range, inBlock.range, x, from, dest);
        result := GetRange(IntersectWith(result.range, inBlock.range));
        return;
      }
      if !HasBlockValue(x, from) {
        BlockValueStack := BlockValueStack + [Work(from, x)];
        ok := false;
        return;
      }
      result := GetBlockValue(x, from);
      HoldsIsEdge(pr, result, x, from, dest);
    }

    /** The entry of v at b is being computed: it is overdefined for now, and not on record. */
    ghost predicate InProgress(v: Var, b: Node)
      reads this
    {
      && Valid() && WorkOK(pr, BlockValueStack)
      && Live(pr, Reg(v), b) && v in pr.widths && b in pr.blocks && Key(v, b) !in OverDefinedCache
      && Key(v, b) in ValueCache && ValueCache[Key(v, b)] == Overdefined
    }

    /** Set the entry being computed. */
    method Store(v: Var, b: Node, lv: LatticeVal)
      requires InProgress(v, b) && Holds(pr, lv, Reg(v), b)
      modifies `ValueCache
      ensures Valid() && ValueCache == old(ValueCache)[Key(v, b) := lv]
    {
      hide Holds, Live;
      StoreTrue(pr, ValueCache, Key(v, b), lv);
      StoreSeen(ValueCache, SeenBlocks, Key(v, b), lv);
      StoreRecorded(ValueCache, OverDefinedCache, Key(v, b), lv);
      ValueCache := ValueCache[Key(v, b) := lv];
    }

    /** What both joins promise: done with the entry set, or not done with work added. */
    twostate predicate Attempted(done: bool, v: Var, b: Node)
      reads this
    {
      && Valid() && OverDefinedCache == old(OverDefinedCache)
      && (done ==> BlockValueStack == old(BlockValueStack) && Key(v, b) in ValueCache
                   && VisitOf(pr, old(ValueCache), v, b) == Done(ValueCache[Key(v, b)])
                   && ValueCache == old(ValueCache)[Key(v, b) := ValueCache[Key(v, b)]])
      && (!done ==> ValueCache == old(ValueCache) && VisitOf(pr, old(ValueCache), v, b).Blocked?
                    && VisitOf(pr, old(ValueCache), v, b).work != []
                    && BlockValueStack == old(BlockValueStack) + VisitOf(pr, old(ValueCache), v, b).work)
      && WorkOK(pr, BlockValueStack)
    }

    /** A value not defined in the block: join over the predecessors. */
    method SolveBlockValueNonLocal(v: Var, b: Node) returns (done: bool)
      requires InProgress(v, b) && !pr.DefinedIn(v, b)
      modifies `ValueCache, `SeenBlocks, `BlockValueStack
      ensures Attempted(done, v, b)
    {
      hide Holds, HoldsOnEdge, Program.Valid, TrueCache, CoversFrom, Live, Recorded, SeenAll, LatticeVal.MergeIn, VisitOf, EdgeFact, Join;
      VisitNonLocal(pr, ValueCache, v, b);
      if b == pr.entry {
        // Only an argument can be live into the entry block
        EntryLiveIn(pr, v);
        OverdefinedHolds(pr, Reg(v), b);
        Store(v, b, Overdefined);
        return true;
      }
      var result := Undefined;
      var edgesMissing := false;
      var preds := pr.blocks[b].preds;
      ghost var sources := PredSources(v, preds);
      ghost var ps: set<Node> := {};
      CoversNothing(pr, v, b);
      JoinNone(pr, ValueCache, b);
      for k := 0 to |preds|
        invariant InProgress(v, b) && ValueCache == old(ValueCache) && OverDefinedCache == old(OverDefinedCache)
        invariant var j := Join(pr, ValueCache, b, sources[..k]);
                  && !j.stopped && BlockValueStack == old(BlockValueStack) + j.missing
                  && (edgesMissing <==> j.missing != []) && (!edgesMissing ==> result == j.result)
        invariant !edgesMissing ==> CoversFrom(pr, result, v, b, ps) && ps == (set i | 0 <= i < k :: preds[i])
      {
        var p := preds[k];
        JoinNext(pr, ValueCache, b, sources, k);
        PredLive(pr, v, b, k);
        var ok, edgeResult := GetEdgeValue(Reg(v), p, b);
        edgesMissing := edgesMissing || !ok;
        if !edgesMissing {
          NonLocalStep(pr, result, edgeResult, v, b, ps, p);
          MergeDefined(pr, result, edgeResult, v, b, ps, p);
          result := result.MergeIn(edgeResult);
          ps := ps + {p};
          if result.Overdefined? {
            JoinStopped(pr, ValueCache, b, sources, k + 1);
            OverdefinedHolds(pr, Reg(v), b);
            Store(v, b, result);
            return true;
          }
        }
      }
      assert sources[..|preds|] == sources;
      if edgesMissing {
        return false;
      }
      PredsDone(pr, result, v, b, ps);
      Store(v, b, result);
      done := true;
    }

    /** A phi: join over its entries. */
    method SolveBlockValuePHINode(v: Var, b: Node, k: nat) returns (done: bool)
      requires InProgress(v, b) && b in pr.blocks && k < |pr.blocks[b].phis| && pr.blocks[b].phis[k].v == v
      requires v in pr.site && pr.site[v] == PhiSite(b, k)
      modifies `ValueCache, `SeenBlocks, `BlockValueStack
      ensures Attempted(done, v, b)
    {
      hide Holds, HoldsOnEdge, Program.Valid, TrueCache, CoversFrom, Live, Recorded, SeenAll, LatticeVal.MergeIn, FromsUpTo, VisitOf, EdgeFact, Join;
      VisitPhi(pr, ValueCache, v, b, k);
      var result := Undefined;
      var edgesMissing := false;
      var inc := pr.blocks[b].phis[k].incoming;
      CoversNothing(pr, v, b);
      JoinNone(pr, ValueCache, b);
      NoFroms(inc);
      for n := 0 to |inc|
        invariant InProgress(v, b) && ValueCache == old(ValueCache) && OverDefinedCache == old(OverDefinedCache)
        invariant var j := Join(pr, ValueCache, b, inc[..n]);
                  && !j.stopped && BlockValueStack == old(BlockValueStack) + j.missing
                  && (edgesMissing <==> j.missing != []) && (!edgesMissing ==> result == j.result)
        invariant !edgesMissing ==> CoversFrom(pr, result, v, b, FromsUpTo(inc, n))
      {
        JoinNext(pr, ValueCache, b, inc, n);
        PhiEntry(pr, b, k, n);
        var ok, edgeResult := GetEdgeValue(inc[n].op, inc[n].from, b);
        edgesMissing := edgesMissing || !ok;
        if !edgesMissing {
          PhiStep(pr, result, edgeResult, b, k, n);
          MergeWidths(result, edgeResult, pr.Mod(v));
          result := result.MergeIn(edgeResult);
          if result.Overdefined? {
            JoinStopped(pr, ValueCache, b, inc, n + 1);
            OverdefinedHolds(pr, Reg(v), b);
            Store(v, b, result);
            return true;
          }
        }
      }
      assert inc[..|inc|] == inc;
      if edgesMissing {
        return false;
      }
      PhiCoversPreds(pr, b, k);
      PredsDone(pr, result, v, b, FromsUpTo(inc, |inc|));
      Store(v, b, result);
      done := true;
    }

    /** A binary operator with a constant on the right, or a cast: the range of the left operand decides. */
    method SolveBlockValueConstantRange(v: Var, b: Node, i: Instr) returns (done: bool)
      requires InProgress(v, b) && pr.site[v].BodySite? && pr.site[v].block == b && b in pr.blocks
      requires InstrOf(pr, Reg(v)) == Some(i) && ((i.Bin? && i.rhs.Const?) || i.Cast?)
      modifies `ValueCache, `SeenBlocks, `BlockValueStack
      ensures Attempted(done, v, b)
    {
      hide Holds, Program.Valid, TrueCache, Live, Recorded, SeenAll, InstrOf, Transfer, TableApplies;
      LhsLive(pr, v, b);
      SiteFacts(pr, v);
      if !HasBlockValue(LhsOf(i), b) {
        BlockValueStack := BlockValueStack + [Work(b, LhsOf(i))];
        return false;
      }
      var lhsVal := GetBlockValue(LhsOf(i), b);
      if !lhsVal.ConstantRange? {
        OverdefinedHolds(pr, Reg(v), b);
        Store(v, b, Overdefined);
        return true;
      }
      TransferTrue(pr, v, b, lhsVal.range);
      Store(v, b, Transfer(i, lhsVal.range, pr.Mod(v)));
      done := true;
    }

    /** Dispatch on what v is, for an entry that has just been set to overdefined. */
    method SolveByKind(v: Var, b: Node) returns (done: bool)
      requires InProgress(v, b)
      modifies `ValueCache, `SeenBlocks, `BlockValueStack
      ensures Attempted(done, v, b)
    {
      hide Holds, TrueCache, Live, Recorded, SeenAll, Program.Available;
      if !pr.DefinedIn(v, b) {
        done := SolveBlockValueNonLocal(v, b);
        return;
      }
      SiteFacts(pr, v);
      if pr.site[v].PhiSite? {
        done := SolveBlockValuePHINode(v, b, pr.site[v].index);
        return;
      }
      var i := pr.blocks[b].body[pr.site[v].index].i;
      if (i.Bin? && i.rhs.Const?) || i.Cast? {
        done := SolveBlockValueConstantRange(v, b, i);
        return;
      }
      // Neither an operator nor a cast, or no constant on the right
      OverdefinedHolds(pr, Reg(v), b);
      Store(v, b, Overdefined);
      done := true;
    }

    /** One work item. True: the item's entry is there and nothing was pushed. False: work was pushed, and the entry
        stays overdefined, so that the second visit takes it as it is. */
    method SolveBlockValue(x: Operand, b: Node) returns (done: bool)
      requires Valid() && WorkOK(pr, BlockValueStack) && Live(pr, x, b)
      modifies `ValueCache, `OverDefinedCache, `SeenBlocks, `BlockValueStack
      ensures Valid() && WorkOK(pr, BlockValueStack)
      ensures Settles(old(ValueCache), ValueCache)
      ensures State() == VisitItem(pr, old(State()), x, b)
      ensures done ==> BlockValueStack == old(BlockValueStack) && HasBlockValue(x, b)
      ensures !done ==> old(BlockValueStack) < BlockValueStack
      ensures !done ==> x.Reg? && Open(old(ValueCache), Key(x.v, b)) && ValueCache[Key(x.v, b) := Overdefined] == ValueCache
      ensures !done ==> OverDefinedCache == old(OverDefinedCache)
      ensures done ==> x.Const? || OverDefinedCache == old(OverDefinedCache) + (if Open(old(ValueCache), Key(x.v, b)) && ValueCache[Key(x.v, b)].Overdefined? then {Key(x.v, b)} else {})
    {
      hide Holds, TrueCache, Live, Program.Valid, WorkOK, Program.Available, SeenAll;
      if x.Const? {
        return true;
      }
      var k := Key(x.v, b);
      SeenMore(ValueCache, SeenBlocks, b);
      SeenBlocks := SeenBlocks + {b};
      if k in ValueCache && !ValueCache[k].Undefined? {
        return true;
      }
      LiveFacts(pr, x.v, b);
      OverdefinedHolds(pr, x, b);
      StoreTrue(pr, ValueCache, k, Overdefined);
      StoreSeen(ValueCache, SeenBlocks, k, Overdefined);
      NotRecorded(ValueCache, OverDefinedCache, k);
      ghost var cache0 := ValueCache;
      ValueCache := ValueCache[k := Overdefined];
      done := SolveByKind(x.v, b);
      if done && ValueCache[k].Overdefined? {
        OverDefinedCache := OverDefinedCache + {k};
      }
      assert forall k' {:trigger k' in cache0} :: k' in cache0 && k' != k ==> k' in ValueCache && ValueCache[k'] == cache0[k'];
    }

    /** Empty the work stack. Each turn either settles an entry that was open or shortens the stack. */
    method Solve()
      requires Valid() && WorkOK(pr, BlockValueStack)
      modifies `ValueCache, `OverDefinedCache, `SeenBlocks, `BlockValueStack
      ensures Valid() && BlockValueStack == []
      ensures Settles(old(ValueCache), ValueCache)
      ensures exists n :: State() == Turns(pr, old(State()), n)
      ensures forall i {:trigger old(BlockValueStack)[i]} :: 0 <= i < |old(BlockValueStack)| ==>
                HasBlockValue(old(BlockValueStack)[i].x, old(BlockValueStack)[i].b)
    {
      hide TrueCache, Live, Program.Valid, Recorded, SeenAll, Unsettled, VisitItem;
      ghost var st0, turns := BlockValueStack, 0;
      assert Settles(ValueCache, ValueCache);
      while BlockValueStack != []
        invariant Valid() && WorkOK(pr, BlockValueStack)
        invariant Settles(old(ValueCache), ValueCache) && State() == Turns(pr, old(State()), turns)
        invariant forall i {:trigger st0[i]} :: 0 <= i < |st0| ==>
                    (i < |BlockValueStack| && BlockValueStack[i] == st0[i]) || HasBlockValue(st0[i].x, st0[i].b)
        decreases Unsettled(pr, ValueCache), |BlockValueStack|
      {
        ghost var cache, st := ValueCache, BlockValueStack;
        var e := BlockValueStack[|BlockValueStack| - 1];
        var done := SolveBlockValue(e.x, e.b);
        SettlesTrans(old(ValueCache), cache, ValueCache);
        UnsettledShrinks(pr, cache, ValueCache);
        StillThere(st0, st, cache, ValueCache);
        if done {
          assert BlockValueStack[|BlockValueStack| - 1] == e;
          BlockValueStack := BlockValueStack[..|BlockValueStack| - 1];
        } else {
          LiveFacts(pr, e.x.v, e.b);
          UnsettledLess(pr, cache, ValueCache, Key(e.x.v, e.b));
        }
        turns := turns + 1;
      }
    }

    /** The fact about x at the end of b, whatever the cache held before. */
    method GetValueInBlock(x: Operand, b: Node) returns (result: LatticeVal)
      requires Valid() && BlockValueStack == [] && Live(pr, x, b)
      modifies `ValueCache, `OverDefinedCache, `SeenBlocks, `BlockValueStack
      ensures Valid() && BlockValueStack == [] && Settles(old(ValueCache), ValueCache)
      ensures Holds(pr, result, x, b)
      ensures result == Answer(pr, old(ValueCache), x, b)
    {
      hide TrueCache, Live, Program.Valid, Recorded, SeenAll, Answer, Turns;
      BlockValueStack := BlockValueStack + [Work(b, x)];
      ghost var st, s := BlockValueStack, State();
      assert st[0] == Work(b, x);
      Solve();
      AnswerStands(pr, s, State(), x, b);
      result := GetBlockValue(x, b);
    }

    /** The fact about x on an edge. When the first attempt finds a fact missing, the second, after solving, never does. */
    method GetValueOnEdge(x: Operand, from: Node, dest: Node) returns (result: LatticeVal)
      requires Valid() && BlockValueStack == [] && Live(pr, x, from)
      modifies `ValueCache, `OverDefinedCache, `SeenBlocks, `BlockValueStack
      ensures Valid() && BlockValueStack == [] && Settles(old(ValueCache), ValueCache)
      ensures HoldsOnEdge(pr, result, x, from, dest)
      ensures result == EdgeAnswer(pr, old(ValueCache), x, from, dest)
    {
      hide TrueCache, Live, Program.Valid, Recorded, SeenAll, Answer, Turns;
      var ok;
      ok, result := GetEdgeValue(x, from, dest);
      if !ok {
        ghost var st, s := BlockValueStack, State();
        assert st[0] == Work(from, x);
        Solve();
        AnswerStands(pr, s, State(), x, from);
        SameEdgeFact(pr, ValueCache, s.cache, x, from, dest);
        ok, result := GetEdgeValue(x, from, dest);
        assert ok;
      }
    }

    /** Is the comparison of x with a constant known to hold, or not to hold, on the edge? */
    method GetPredicateOnEdge(p: Pred, x: Operand, c: int, from: Node, dest: Node) returns (t: Tristate)
      requires Valid() && BlockValueStack == [] && Live(pr, x, from) && InWidth(c, pr.OpMod(x))
      modifies `ValueCache, `OverDefinedCache, `SeenBlocks, `BlockValueStack
      ensures Valid() && BlockValueStack == []
      ensures forall r {:trigger EndsAt(pr, r, from)} :: EndsAt(pr, r, from) && pr.Goes(from, LastOrEmpty(r).env, dest) ==>
                && (t == True ==> Compare(p, pr.Val(x, LastOrEmpty(r).env), c, pr.OpMod(x)))
                && (t == False ==> !Compare(p, pr.Val(x, LastOrEmpty(r).env), c, pr.OpMod(x)))
      ensures var fact := EdgeAnswer(pr, old(ValueCache), x, from, dest);
              && (t == True <==> fact.ConstantRange? && AllOf(p, fact.range, c))
              && (t == False <==> fact.ConstantRange? && NoneOf(p, fact.range, c))
    {
      hide TrueCache, Live, Program.Valid, Recorded, SeenAll, Compare, PredicateOfRange, EdgeAnswer, AllOf, NoneOf;
      var result := GetValueOnEdge(x, from, dest);
      t := Unknown;
      if result.ConstantRange? {
        PredicateOnEdge(pr, p, result.range, x, c, from, dest);
        EvenWidth(pr, x, from);
        PredicateComplete(p, result.range, c);
        t := PredicateOfRange(p, result.range, c);
      }
    }

    // ----- When the program changes -----

    /** The program is another one from now on. What is in the cache stays; it is still valid if the facts carry over. */
    method ProgramChanged(now: Program)
      requires Valid() && now.Valid() && Carried(pr, now, ValueCache) && BlockValueStack == []
      modifies `pr
      ensures Valid() && pr == now
    {
      hide Program.Valid, TrueCache, Carried, Recorded, SeenAll;
      CarriedTrue(pr, now, ValueCache);
      pr := now;
    }

    /** A value has been deleted. */
    method Deleted(v: Var)
      requires Valid()
      modifies `ValueCache, `OverDefinedCache
      ensures Valid()
      ensures ValueCache == map k | k in old(ValueCache) && k.v != v :: old(ValueCache)[k]
      ensures OverDefinedCache == set k | k in old(OverDefinedCache) && k.v != v
    {
      hide Holds, Live;
      OverDefinedCache := set k | k in OverDefinedCache && k.v != v;
      ValueCache := map k | k in ValueCache && k.v != v :: ValueCache[k];
    }

    /** A block has been deleted: nothing about it is left, even if it was skipped as never seen. */
    method EraseBlock(b: Node)
      requires Valid()
      modifies `ValueCache, `OverDefinedCache, `SeenBlocks
      ensures Valid()
      ensures ValueCache == map k | k in old(ValueCache) && k.b != b :: old(ValueCache)[k]
      ensures OverDefinedCache == set k | k in old(OverDefinedCache) && k.b != b
    {
      hide Holds, Live;
      if b !in SeenBlocks {
        assert ValueCache == map k | k in ValueCache && k.b != b :: ValueCache[k];
        assert OverDefinedCache == set k | k in OverDefinedCache && k.b != b;
        return;
      }
      SeenBlocks := SeenBlocks - {b};
      OverDefinedCache := set k | k in OverDefinedCache && k.b != b;
      ValueCache := map k | k in ValueCache && k.b != b :: ValueCache[k];
    }

    /** Drop the overdefined entries of these values at b; was there any? */
    method ClearMarks(b: Node, clear: set<Var>) returns (changed: bool)
      requires Valid()
      modifies `ValueCache, `OverDefinedCache
      ensures Valid()
      ensures ValueCache == WithoutMarks(old(ValueCache), MarksAt(old(OverDefinedCache), clear, b))
      ensures OverDefinedCache == old(OverDefinedCache) - MarksAt(old(OverDefinedCache), clear, b)
      ensures changed <==> MarksAt(old(OverDefinedCache), clear, b) != {}
    {
      hide Holds, Live;
      changed := false;
      var rest := clear;
      NoMarks(ValueCache, OverDefinedCache, b);
      while rest != {}
        invariant Valid() && rest <= clear
        invariant ValueCache == WithoutMarks(old(ValueCache), MarksAt(old(OverDefinedCache), clear - rest, b))
        invariant OverDefinedCache == old(OverDefinedCache) - MarksAt(old(OverDefinedCache), clear - rest, b)
        invariant changed <==> MarksAt(old(OverDefinedCache), clear - rest, b) != {}
        decreases rest
      {
        var v :| v in rest;
        MoreMarks(old(ValueCache), old(OverDefinedCache), clear - rest, v, b);
        assert clear - (rest - {v}) == (clear - rest) + {v};
        if Key(v, b) in OverDefinedCache {
          // The entry is there to be found
          assert Key(v, b) in ValueCache;
          ValueCache := WithoutMarks(ValueCache, {Key(v, b)});
          OverDefinedCache := OverDefinedCache - {Key(v, b)};
          changed := true;
        }
        rest := rest - {v};
      }
      assert clear - rest == clear;
    }

    /** An edge to oldSucc now goes to newSucc: drop what was overdefined in oldSucc there, and in every block
        reached from there through blocks where something was dropped, short of newSucc. */
    method ThreadEdge(oldSucc: Node, newSucc: Node)
      requires Valid() && oldSucc in pr.blocks
      modifies `ValueCache, `OverDefinedCache
      ensures Valid()
      ensures var clear := set k | k in old(OverDefinedCache) && k.b == oldSucc :: k.v;
              var gone := Gone(pr, old(OverDefinedCache), clear, oldSucc, newSucc);
              OverDefinedCache == old(OverDefinedCache) - gone && ValueCache == WithoutMarks(old(ValueCache), gone)
    {
      hide Walking, MarksAt, WithoutMarks, Gone, TrueCache, Recorded, SeenAll;
      ghost var od0, cache0 := OverDefinedCache, ValueCache;
      var worklist := [oldSucc];
      var clear := set k | k in OverDefinedCache && k.b == oldSucc :: k.v;
      WalkStarts(pr, cache0, od0, clear, oldSucc, newSucc);
      while worklist != []
        invariant Valid() && Walking(pr, cache0, od0, clear, oldSucc, newSucc, worklist, ValueCache, OverDefinedCache)
        decreases |OverDefinedCache|, |worklist|
      {
        ghost var wl, cache, od := worklist, ValueCache, OverDefinedCache;
        var toUpdate := worklist[|worklist| - 1];
        worklist := worklist[..|worklist| - 1];
        WalkBlock(pr, cache0, od0, clear, oldSucc, newSucc, wl, cache, od);
        if toUpdate != newSucc {
          var changed := ClearMarks(toUpdate, clear);
          MarksShrink(od, clear, toUpdate);
          if changed {
            worklist := worklist + pr.Targets(pr.blocks[toUpdate].term);
          } else {
            NothingDropped(cache, od, clear, toUpdate);
          }
        }
      }
      WalkEnds(pr, cache0, od0, clear, oldSucc, newSucc, ValueCache, OverDefinedCache);
    }
  }
}
