/** When cached facts outlive a change of the program: in general, and when an edge has been led past a block whose
    branch was known. */
module LviThreading {
  import opened ConstantRange
  import opened Dominance
  import opened LviProgram
  import opened LviLattice
  import opened LviFacts

  // ----- Any change -----

  /** The value is one that v had at the end of b before the change. */
  ghost predicate Matched(o: Program, k: Key, x: int) {
    exists r :: EndsAt(o, r, k.b) && o.Val(Reg(k.v), LastOrEmpty(r).env) == x
  }

  /** Each value that an entry is still about, on an execution of the new program, was there in the old one. */
  ghost predicate Carried(o: Program, n: Program, cache: Cache) {
    forall k {:trigger k in cache} :: k in cache ==> n.Mod(k.v) == o.Mod(k.v) && CarriedAt(o, n, k)
  }

  ghost predicate CarriedAt(o: Program, n: Program, k: Key) {
    forall r {:trigger EndsAt(n, r, k.b)} :: EndsAt(n, r, k.b) && Live(n, Reg(k.v), k.b) ==>
      Live(o, Reg(k.v), k.b) && Matched(o, k, n.Val(Reg(k.v), LastOrEmpty(r).env))
  }

  /** Then what was true is true. */
  lemma CarriedTrue(o: Program, n: Program, cache: Cache)
    requires TrueCache(o, cache) && Carried(o, n, cache)
    ensures TrueCache(n, cache)
  {
    forall k | k in cache && Live(n, Reg(k.v), k.b) ensures Holds(n, cache[k], Reg(k.v), k.b) {
      assert CarriedAt(o, n, k);
      forall r | EndsAt(n, r, k.b) ensures cache[k].Allows(n.Val(Reg(k.v), LastOrEmpty(r).env)) {
        var r' :| EndsAt(o, r', k.b) && o.Val(Reg(k.v), LastOrEmpty(r').env) == n.Val(Reg(k.v), LastOrEmpty(r).env);
        assert Holds(o, cache[k], Reg(k.v), k.b);
      }
    }
  }

  /** Nothing is asked of a change if no execution is considered: all but the truth of the facts outlives any change. */
  lemma UncalledCarried(o: Program, n: Program, cache: Cache)
    requires n.calls == iset{} && forall k {:trigger k in cache} :: k in cache ==> n.Mod(k.v) == o.Mod(k.v)
    ensures Carried(o, n, cache)
  {
    forall r: seq<Frame> ensures !IsRun(n, r) { NoRun(n, r); }
  }

  /** Of a program without executions, true entries are those of the right width. */
  lemma UncalledTrue(n: Program, cache: Cache)
    requires n.calls == iset{}
    ensures TrueCache(n, cache) <==> forall k {:trigger k in cache} :: k in cache ==> cache[k].Fits(n.Mod(k.v))
  {
    forall r: seq<Frame> ensures !IsRun(n, r) { NoRun(n, r); }
  }

  lemma NoRun(n: Program, r: seq<Frame>)
    requires n.calls == iset{}
    ensures !IsRun(n, r)
  {
  }

  // ----- Leading an edge past a block -----

  function Led(d: Node, mid: Node, dest: Node): Node { if d == mid then dest else d }

  function LedCases(cs: seq<SwitchCase>, mid: Node, dest: Node): (r: seq<SwitchCase>) {
    if cs == [] then [] else [SwitchCase(cs[0].val, Led(cs[0].dest, mid, dest))] + LedCases(cs[1..], mid, dest)
  }

  function LedTerm(t: Term, mid: Node, dest: Node): Term {
    match t
    case Ret => Ret
    case Br(d) => Br(Led(d, mid, dest))
    case CondBr(c, a, b) => CondBr(c, Led(a, mid, dest), Led(b, mid, dest))
    case Switch(c, d, cs) => Switch(c, Led(d, mid, dest), LedCases(cs, mid, dest))
  }

  /** Where a phi of b finds, in the old program, what it is given for p in the new one. */
  function OldPred(pred: Node, mid: Node, dest: Node, b: Node, p: Node): Node { if b == dest && p == pred then mid else p }

  ghost predicate PhisLed(o: Program, n: Program, pred: Node, mid: Node, dest: Node, b: Node)
    requires b in o.blocks && b in n.blocks
  {
    && |n.blocks[b].phis| == |o.blocks[b].phis|
    && forall k, p {:trigger n.PickIncoming(n.blocks[b].phis[k].incoming, p)} ::
         0 <= k < |n.blocks[b].phis| && n.Cfg().Edge(p, b) ==>
           && n.blocks[b].phis[k].v == o.blocks[b].phis[k].v
           && n.PickIncoming(n.blocks[b].phis[k].incoming, p) ==
              o.PickIncoming(o.blocks[b].phis[k].incoming, OldPred(pred, mid, dest, b, p))
  }

  /** The edges from pred to mid lead to dest now, and the phis there get from pred what they got from mid. */
  ghost predicate Threaded(o: Program, n: Program, pred: Node, mid: Node, dest: Node) {
    && n.entry == o.entry && n.widths == o.widths && n.site == o.site && n.calls <= o.calls
    && n.blocks.Keys == o.blocks.Keys && pred in o.blocks && mid in o.blocks
    && mid != dest && !o.Cfg().Edge(pred, dest)
    && forall b {:trigger b in o.blocks} :: b in o.blocks ==>
         && n.blocks[b].body == o.blocks[b].body
         && n.blocks[b].term == (if b == pred then LedTerm(o.blocks[b].term, mid, dest) else o.blocks[b].term)
         && PhisLed(o, n, pred, mid, dest, b)
  }

  /** Whatever comes from pred goes on from mid to dest. */
  ghost predicate BranchKnown(o: Program, pred: Node, mid: Node, dest: Node)
    requires mid in o.blocks
  {
    forall r, any {:trigger EndsAt(o, r, pred), BlockEnv(o, mid, pred, LastOrEmpty(r).env, any)} ::
      EndsAt(o, r, pred) && o.Goes(pred, LastOrEmpty(r).env, mid) ==>
        o.Goes(mid, BlockEnv(o, mid, pred, LastOrEmpty(r).env, any), dest)
  }

  /** What an answer about a comparison on the edge from pred to mid means: every execution over the edge obeys it. */
  ghost predicate Answered(o: Program, p: Pred, x: Operand, c: int, pred: Node, mid: Node, holds: bool) {
    forall r {:trigger EndsAt(o, r, pred)} :: EndsAt(o, r, pred) && o.Goes(pred, LastOrEmpty(r).env, mid) ==>
      Compare(p, o.Val(x, LastOrEmpty(r).env), c, o.OpMod(x)) == holds
  }

  /** The answer to a query on the edge makes the branch known, if mid only compares and branches. */
  lemma AnswerMakesKnown(o: Program, p: Pred, x: Operand, c: int, w: nat, v: Var, pred: Node, mid: Node,
                         yes: Node, no: Node, holds: bool)
    requires o.Valid() && mid in o.blocks && Answered(o, p, x, c, pred, mid, holds)
    requires o.blocks[mid].phis == [] && o.blocks[mid].body == [Def(v, ICmp(p, x, Const(c, w)))]
    requires o.blocks[mid].term == CondBr(Reg(v), yes, no)
    ensures BranchKnown(o, pred, mid, if holds then yes else no)
  {
    hide Compare;
    var body := o.blocks[mid].body;
    assert o.BlockOK(mid) && body[0] == o.blocks[mid].body[0];
    assert o.DefOK(mid, 0);
    assert o.Mod(v) == 2 by { assert Pow2(1) == 2 * Pow2(0); }
    forall r, any | EndsAt(o, r, pred) && o.Goes(pred, LastOrEmpty(r).env, mid)
      ensures o.Goes(mid, BlockEnv(o, mid, pred, LastOrEmpty(r).env, any), if holds then yes else no)
    {
      var e := LastOrEmpty(r).env;
      assert body[..0] == [];
      assert o.BodyEnv(body[..0], e, any) == e;
      assert BlockEnv(o, mid, pred, e, any)[v] == if holds then 1 else 0;
    }
  }

  /** No value computed in mid is in use at the end of pred, from an earlier visit. */
  ghost predicate NotInUse(o: Program, n: Program, pred: Node, mid: Node) {
    forall v {:trigger n.LiveOut(v, pred)} :: o.DefinedIn(v, mid) ==> !n.LiveOut(v, pred)
  }

  lemma {:induction false} LedDest(o: Program, n: Program, cs: seq<SwitchCase>, d: Node, x: int, mid: Node, dest: Node)
    ensures n.SwitchDest(LedCases(cs, mid, dest), Led(d, mid, dest), x) == Led(o.SwitchDest(cs, d, x), mid, dest)
  {
    if cs != [] { LedDest(o, n, cs[1..], d, x, mid, dest); }
  }

  lemma {:induction false} SameDest(o: Program, n: Program, cs: seq<SwitchCase>, d: Node, x: int)
    ensures n.SwitchDest(cs, d, x) == o.SwitchDest(cs, d, x)
  {
    if cs != [] { SameDest(o, n, cs[1..], d, x); }
  }

  lemma GoesLed(o: Program, n: Program, pred: Node, mid: Node, dest: Node, b: Node, env: Env, d: Node)
    requires Threaded(o, n, pred, mid, dest) && n.Goes(b, env, d)
    ensures b == pred && d == dest ==> o.Goes(b, env, mid)
    ensures !(b == pred && d == dest) ==> o.Goes(b, env, d)
  {
    if b == pred {
      var t := o.blocks[b].term;
      assert t.Switch? ==> n.Val(t.on, env) == o.Val(t.on, env);
      if t.Switch? { LedDest(o, n, t.cases, t.default, o.Val(t.on, env), mid, dest); }
      if d == dest && o.Goes(b, env, dest) { GoesIsEdge(o, b, env, dest); }
    } else {
      var t := o.blocks[b].term;
      assert t.Switch? ==> n.Val(t.on, env) == o.Val(t.on, env);
      if t.Switch? { SameDest(o, n, t.cases, t.default, o.Val(t.on, env)); }
    }
  }

  // ----- Two executions side by side -----

  /** What is defined at instruction k of b has the same value. */
  ghost predicate Agree(n: Program, b: Node, k: nat, e: Env, e': Env) {
    forall v {:trigger n.Available(Reg(v), b, k)} :: n.Available(Reg(v), b, k) ==> n.Val(Reg(v), e) == n.Val(Reg(v), e')
  }

  lemma OperandAgrees(n: Program, b: Node, k: nat, e: Env, e': Env, x: Operand)
    requires Agree(n, b, k, e, e') && n.Available(x, b, k)
    ensures n.Val(x, e) == n.Val(x, e')
  {
  }

  lemma GoesAgrees(n: Program, b: Node, e: Env, e': Env, d: Node)
    requires n.Valid() && b in n.blocks && Agree(n, b, |n.blocks[b].body|, e, e') && n.Goes(b, e, d)
    ensures n.Goes(b, e', d)
  {
    assert n.BlockOK(b);
    assert n.TermOK(b);
    match n.blocks[b].term
    case CondBr(c, _, _) => OperandAgrees(n, b, |n.blocks[b].body|, e, e', c);
    case Switch(c, _, _) => OperandAgrees(n, b, |n.blocks[b].body|, e, e', c);
    case _ =>
  }

  lemma SameEval(o: Program, n: Program, i: Instr, m: nat, e: Env, any: int)
    requires m > 0 && n.widths == o.widths
    ensures n.Eval(i, m, e, any) == o.Eval(i, m, e, any)
  {
  }

  lemma ReadsAgree(n: Program, b: Node, k: nat, e: Env, e': Env, any: int)
    requires n.Valid() && b in n.blocks && k < |n.blocks[b].body| && Agree(n, b, k, e, e')
    ensures var d := n.blocks[b].body[k]; n.Eval(d.i, n.Mod(d.v), e, any) == n.Eval(d.i, n.Mod(d.v), e', any)
  {
    hide Agree, Program.Eval, Program.Available;
    var d := n.blocks[b].body[k];
    assert n.BlockOK(b);
    assert n.DefOK(b, k);
    forall x | x in Reads(d.i) ensures n.Val(x, e) == n.Val(x, e') { OperandAgrees(n, b, k, e, e', x); }
    EvalSame(n, d.i, n.Mod(d.v), e, e', any);
  }

  /** After the first k instructions of b. */
  lemma {:induction false} BodyAgrees(o: Program, n: Program, b: Node, e: Env, e': Env, any: map<Var, int>, k: nat)
    requires n.Valid() && n.widths == o.widths && b in n.blocks && k <= |n.blocks[b].body| && Agree(n, b, 0, e, e')
    ensures Agree(n, b, k, n.BodyEnv(n.blocks[b].body[..k], e, any), o.BodyEnv(n.blocks[b].body[..k], e', any))
    decreases k
  {
    hide Program.Eval, Dominates;
    if k > 0 {
      var body := n.blocks[b].body;
      BodyAgrees(o, n, b, e, e', any, k - 1);
      assert body[..k][..k - 1] == body[..k - 1];
      var d, a := body[k - 1], if body[k - 1].v in any then any[body[k - 1].v] else 0;
      var f, f' := n.BodyEnv(body[..k - 1], e, any), o.BodyEnv(body[..k - 1], e', any);
      ReadsAgree(n, b, k - 1, f, f', a);
      SameEval(o, n, d.i, n.Mod(d.v), f', a);
      assert o.Mod(d.v) == n.Mod(d.v);
      OneMoreAgrees(n, b, k, f, f', n.Eval(d.i, n.Mod(d.v), f, a));
    }
  }

  lemma OneMoreAgrees(n: Program, b: Node, k: nat, f: Env, f': Env, x: int)
    requires n.Valid() && b in n.blocks && 0 < k <= |n.blocks[b].body| && Agree(n, b, k - 1, f, f')
    ensures var v := n.blocks[b].body[k - 1].v; Agree(n, b, k, f[v := x], f'[v := x])
  {
    var v := n.blocks[b].body[k - 1].v;
    forall w | n.Available(Reg(w), b, k) && w != v ensures n.Val(Reg(w), f) == n.Val(Reg(w), f') {
      assert n.SiteOK(w);
      assert n.Available(Reg(w), b, k - 1);
    }
  }

  /** Entering b: the phis take the same values, and nothing else changes. */
  lemma EntryAgrees(o: Program, n: Program, b: Node, p: Node, p': Node, e: Env, e': Env)
    requires o.Valid() && n.Valid() && n.site == o.site && n.widths == o.widths && b in n.blocks && b in o.blocks
    requires n.Cfg().Edge(p, b) && |n.blocks[b].phis| == |o.blocks[b].phis|
    requires forall v {:trigger n.LiveOut(v, p)} :: n.LiveOut(v, p) ==> n.Val(Reg(v), e) == n.Val(Reg(v), e')
    requires forall k {:trigger n.blocks[b].phis[k]} :: 0 <= k < |n.blocks[b].phis| ==>
               && n.blocks[b].phis[k].v == o.blocks[b].phis[k].v
               && n.PickIncoming(n.blocks[b].phis[k].incoming, p) == o.PickIncoming(o.blocks[b].phis[k].incoming, p')
    ensures Agree(n, b, 0, n.PhiEnv(n.blocks[b].phis, p, e), o.PhiEnv(o.blocks[b].phis, p', e'))
  {
    hide Program.PhiEnv, Program.PickIncoming;
    forall v | n.Available(Reg(v), b, 0)
      ensures n.Val(Reg(v), n.PhiEnv(n.blocks[b].phis, p, e)) == n.Val(Reg(v), o.PhiEnv(o.blocks[b].phis, p', e'))
    {
      if n.DefinedIn(v, b) { PhiAgrees(o, n, b, p, p', e, e', v); } else { OldAgrees(o, n, b, p, p', e, e', v); }
    }
  }

  lemma PhiAgrees(o: Program, n: Program, b: Node, p: Node, p': Node, e: Env, e': Env, v: Var)
    requires o.Valid() && n.Valid() && b in n.blocks && b in o.blocks && n.Cfg().Edge(p, b)
    requires |n.blocks[b].phis| == |o.blocks[b].phis|
    requires forall v {:trigger n.LiveOut(v, p)} :: n.LiveOut(v, p) ==> n.Val(Reg(v), e) == n.Val(Reg(v), e')
    requires forall k {:trigger n.blocks[b].phis[k]} :: 0 <= k < |n.blocks[b].phis| ==>
               && n.blocks[b].phis[k].v == o.blocks[b].phis[k].v
               && n.PickIncoming(n.blocks[b].phis[k].incoming, p) == o.PickIncoming(o.blocks[b].phis[k].incoming, p')
    requires n.Available(Reg(v), b, 0) && n.DefinedIn(v, b)
    ensures n.Val(Reg(v), n.PhiEnv(n.blocks[b].phis, p, e)) == n.Val(Reg(v), o.PhiEnv(o.blocks[b].phis, p', e'))
  {
    hide Program.PhiEnv, Program.PickIncoming;
    assert n.SiteOK(v);
    var k := n.site[v].index;
    BodySites(n, b);
    BodySites(o, b);
    PhiHolds(n, n.blocks[b].phis, p, e, k);
    PhiHolds(o, o.blocks[b].phis, p', e', k);
    PhiOperand(n, b, k, p);
    var x := n.PickIncoming(n.blocks[b].phis[k].incoming, p);
    if x.Reg? { assert n.LiveOut(x.v, p); }
  }

  lemma OldAgrees(o: Program, n: Program, b: Node, p: Node, p': Node, e: Env, e': Env, v: Var)
    requires o.Valid() && n.Valid() && n.site == o.site && b in n.blocks && b in o.blocks && n.Cfg().Edge(p, b)
    requires forall v {:trigger n.LiveOut(v, p)} :: n.LiveOut(v, p) ==> n.Val(Reg(v), e) == n.Val(Reg(v), e')
    requires n.Available(Reg(v), b, 0) && !n.DefinedIn(v, b)
    ensures n.Val(Reg(v), n.PhiEnv(n.blocks[b].phis, p, e)) == n.Val(Reg(v), o.PhiEnv(o.blocks[b].phis, p', e'))
  {
    hide Program.PhiEnv;
    LivesInPred(n, v, b, p);
    assert n.LiveOut(v, p);
    BodySites(n, b);
    BodySites(o, b);
    PhiLeaves(n, n.blocks[b].phis, p, e, v);
    PhiLeaves(o, o.blocks[b].phis, p', e', v);
  }

  /** One block, entered from p in the new program and from p' in the old one. */
  lemma BlockAgrees(o: Program, n: Program, pred: Node, mid: Node, dest: Node, b: Node, p: Node, e: Env, e': Env,
                    any: map<Var, int>)
    requires o.Valid() && n.Valid() && Threaded(o, n, pred, mid, dest) && b in n.blocks && n.Cfg().Edge(p, b)
    requires forall v {:trigger n.LiveOut(v, p)} :: n.LiveOut(v, p) ==> n.Val(Reg(v), e) == n.Val(Reg(v), e')
    ensures Agree(n, b, |n.blocks[b].body|, BlockEnv(n, b, p, e, any), BlockEnv(o, b, OldPred(pred, mid, dest, b, p), e', any))
  {
    hide Program.Valid, Program.PhiEnv, Program.BodyEnv, Program.Cfg, Program.PickIncoming, Program.LiveOut, Program.Val, Agree;
    assert PhisLed(o, n, pred, mid, dest, b);
    var p', body := OldPred(pred, mid, dest, b, p), n.blocks[b].body;
    assert forall k {:trigger n.blocks[b].phis[k]} :: 0 <= k < |n.blocks[b].phis| ==>
        n.PickIncoming(n.blocks[b].phis[k].incoming, p) == o.PickIncoming(o.blocks[b].phis[k].incoming, p');
    EntryAgrees(o, n, b, p, p', e, e');
    BodyAgrees(o, n, b, n.PhiEnv(n.blocks[b].phis, p, e), o.PhiEnv(o.blocks[b].phis, p', e'), any, |body|);
    assert body[..|body|] == body;
  }

  lemma RunExtends(pr: Program, r: seq<Frame>, f: Frame, any: map<Var, int>)
    requires IsRun(pr, r) && StepsWith(pr, Last(r), f, any)
    ensures EndsAt(pr, r + [f], f.block) && Last(r + [f]) == f
  {
    var q := r + [f];
    forall i {:trigger q[i]} | 0 < i < |q| ensures Steps(pr, q[i - 1], q[i]) {
      if i < |r| { assert q[i] == r[i] && q[i - 1] == r[i - 1]; } else { assert q[i - 1] == Last(r) && q[i] == f; }
    }
  }

  ghost predicate EndsAlike(o: Program, n: Program, r: seq<Frame>, r': seq<Frame>) {
    && |r| > 0 && Last(r).block in n.blocks && EndsAt(o, r', Last(r).block)
    && Agree(n, Last(r).block, |n.blocks[Last(r).block].body|, Last(r).env, LastOrEmpty(r').env)
  }

  lemma {:induction false} SameBody(o: Program, n: Program, body: seq<Def>, e: Env, any: map<Var, int>)
    requires n.widths == o.widths
    ensures n.BodyEnv(body, e, any) == o.BodyEnv(body, e, any)
  {
    hide Program.Eval;
    if body != [] {
      SameBody(o, n, body[..|body| - 1], e, any);
      var d := body[|body| - 1];
      assert n.Mod(d.v) == o.Mod(d.v);
      SameEval(o, n, d.i, n.Mod(d.v), o.BodyEnv(body[..|body| - 1], e, any), if d.v in any then any[d.v] else 0);
    }
  }

  lemma StartAlike(o: Program, n: Program, pred: Node, mid: Node, dest: Node, r: seq<Frame>)
    requires Threaded(o, n, pred, mid, dest) && IsRun(n, r) && |r| == 1
    ensures EndsAlike(o, n, r, r)
  {
    hide Program.BodyEnv, PhisLed;
    var env, any :| StartsWith(n, r[0], env, any);
    SameBody(o, n, n.blocks[n.entry].body, env, any);
    assert o.blocks[n.entry].body == n.blocks[n.entry].body;
    assert o.InRange(env) by {
      forall v | v in o.widths ensures v in env && 0 <= env[v] < o.Mod(v) { assert v in n.widths; }
    }
    assert StartsWith(o, r[0], env, any);
  }

  /** Every execution of the new program has one of the old that ends in the same block with the same values. */
  lemma {:induction false} Simulated(o: Program, n: Program, pred: Node, mid: Node, dest: Node, r: seq<Frame>)
    returns (r': seq<Frame>)
    requires o.Valid() && n.Valid() && Threaded(o, n, pred, mid, dest) && IsRun(n, r)
    requires BranchKnown(o, pred, mid, dest) && NotInUse(o, n, pred, mid)
    ensures EndsAlike(o, n, r, r')
    decreases |r|
  {
    hide Program.Valid, Threaded, BranchKnown, NotInUse, EndsAlike, Steps;
    if |r| == 1 {
      StartAlike(o, n, pred, mid, dest, r);
      r' := r;
    } else {
      RunPrefix(n, r);
      var q := Simulated(o, n, pred, mid, dest, r[..|r| - 1]);
      r' := StepAlike(o, n, pred, mid, dest, r, q);
    }
  }

  lemma StepAlike(o: Program, n: Program, pred: Node, mid: Node, dest: Node, r: seq<Frame>, q: seq<Frame>)
    returns (r': seq<Frame>)
    requires o.Valid() && n.Valid() && Threaded(o, n, pred, mid, dest) && |r| > 1
    requires BranchKnown(o, pred, mid, dest) && NotInUse(o, n, pred, mid)
    requires EndsAlike(o, n, r[..|r| - 1], q) && Steps(n, Last(r[..|r| - 1]), Last(r))
    ensures EndsAlike(o, n, r, r')
  {
    hide Program.Valid, Threaded, BranchKnown, NotInUse, Program.Goes, BlockEnv;
    var f, g, h := Last(r[..|r| - 1]), Last(r), Last(q);
    var any :| StepsWith(n, f, g, any);
    GoesAgrees(n, f.block, f.env, h.env, g.block);
    GoesIsEdge(n, f.block, f.env, g.block);
    GoesLed(o, n, pred, mid, dest, f.block, h.env, g.block);
    if f.block == pred && g.block == dest {
      r' := StepPast(o, n, pred, mid, dest, f, g, q, any);
    } else {
      KeptBlock(o, n, pred, mid, dest, g.block);
      BlockAgrees(o, n, pred, mid, dest, g.block, f.block, f.env, h.env, any);
      var g' := Frame(g.block, BlockEnv(o, g.block, f.block, h.env, any));
      RunExtends(o, q, g', any);
      r' := q + [g'];
    }
  }

  lemma KeptBlock(o: Program, n: Program, pred: Node, mid: Node, dest: Node, b: Node)
    requires Threaded(o, n, pred, mid, dest) && b in n.blocks
    ensures b in o.blocks && mid in o.blocks && mid != dest && (b == dest ==> OldPred(pred, mid, dest, b, pred) == mid)
    ensures n.site == o.site && n.widths == o.widths
  {
  }

  /** Over the new edge: the old program goes through mid, which changes nothing that is in use. */
  lemma StepPast(o: Program, n: Program, pred: Node, mid: Node, dest: Node, f: Frame, g: Frame, q: seq<Frame>,
                 any: map<Var, int>) returns (r': seq<Frame>)
    requires o.Valid() && n.Valid() && Threaded(o, n, pred, mid, dest)
    requires BranchKnown(o, pred, mid, dest) && NotInUse(o, n, pred, mid)
    requires f.block == pred && g.block == dest && StepsWith(n, f, g, any) && n.Cfg().Edge(pred, dest) && pred in n.blocks
    requires |q| > 0 && EndsAt(o, q, pred) && Agree(n, pred, |n.blocks[pred].body|, f.env, Last(q).env) && o.Goes(pred, Last(q).env, mid)
    ensures EndsAt(o, r', dest) && dest in n.blocks && |r'| > 0
    ensures Agree(n, dest, |n.blocks[dest].body|, g.env, Last(r').env)
  {
    hide Program.Valid, Threaded, Program.Goes, BlockEnv, Program.Cfg, IsRun;
    KeptBlock(o, n, pred, mid, dest, dest);
    var h := Last(q);
    var m := Frame(mid, BlockEnv(o, mid, pred, h.env, any));
    assert EndsAt(o, q, pred) && LastOrEmpty(q) == h;
    assert o.Goes(mid, m.env, dest);
    RunExtends(o, q, m, any);
    var g' := Frame(dest, BlockEnv(o, dest, mid, m.env, any));
    RunExtends(o, q + [m], g', any);
    forall v | n.LiveOut(v, pred) ensures n.Val(Reg(v), f.env) == n.Val(Reg(v), m.env) {
      assert !o.DefinedIn(v, mid);
      Unchanged(o, mid, pred, h.env, any, v);
    }
    BlockAgrees(o, n, pred, mid, dest, dest, pred, f.env, m.env, any);
    r' := q + [m] + [g'];
  }

  /** Every fact outlives the threading of an edge past a block whose branch was known. What is dropped from the cache
      is dropped for a better answer, not because it is wrong. */
  lemma ThreadingCarries(o: Program, n: Program, pred: Node, mid: Node, dest: Node, cache: Cache)
    requires o.Valid() && n.Valid() && Threaded(o, n, pred, mid, dest)
    requires BranchKnown(o, pred, mid, dest) && NotInUse(o, n, pred, mid)
    requires forall k {:trigger k in cache} :: k in cache && Live(n, Reg(k.v), k.b) ==> Live(o, Reg(k.v), k.b)
    ensures Carried(o, n, cache)
  {
    hide Program.Valid, BranchKnown, NotInUse, Live, PhisLed, IsRun;
    forall k | k in cache ensures n.Mod(k.v) == o.Mod(k.v) && CarriedAt(o, n, k) {
      forall r | EndsAt(n, r, k.b) && Live(n, Reg(k.v), k.b)
        ensures Matched(o, k, n.Val(Reg(k.v), LastOrEmpty(r).env))
      {
        AtLeastOne(n, r);
        var r' := Simulated(o, n, pred, mid, dest, r);
        LiveAgrees(n, k, LastOrEmpty(r).env, LastOrEmpty(r').env);
        assert EndsAt(o, r', k.b);
      }
    }
  }

  lemma AtLeastOne(pr: Program, r: seq<Frame>)
    requires IsRun(pr, r)
    ensures |r| > 0
  {
  }

  lemma LiveAgrees(n: Program, k: Key, e: Env, e': Env)
    requires Live(n, Reg(k.v), k.b) && Agree(n, k.b, |n.blocks[k.b].body|, e, e')
    ensures n.Val(Reg(k.v), e) == n.Val(Reg(k.v), e')
  {
  }
}
