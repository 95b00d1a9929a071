/** The integer part of a function in SSA form, its executions, and the fact the analysis rests on: wherever a
    definition dominates, its equation still holds. */
module LviProgram {
  import opened ConstantRange
  import opened Dominance

  type Var = nat
  type Env = map<Var, int>

  datatype Operand = Const(c: int, width: nat) | Reg(v: Var)

  datatype BinOp = Add | Sub | Mul | UDiv | Shl | LShr | And | Or | OtherBin

  datatype CastOp = Trunc | SExt | ZExt | BitCast | OtherCast

  /** Opaque stands for calls, loads and whatever else may produce any value. */
  datatype Instr =
    | Bin(op: BinOp, lhs: Operand, rhs: Operand)
    | Cast(cast: CastOp, src: Operand)
    | ICmp(pred: Pred, left: Operand, right: Operand)
    | Opaque

  datatype Def = Def(v: Var, i: Instr)

  datatype Incoming = Incoming(from: Node, op: Operand)

  datatype PhiDef = PhiDef(v: Var, incoming: seq<Incoming>)

  datatype SwitchCase = SwitchCase(val: int, dest: Node)

  datatype Term =
    | Ret
    | Br(dest: Node)
    | CondBr(cond: Operand, whenTrue: Node, whenFalse: Node)
    | Switch(on: Operand, default: Node, cases: seq<SwitchCase>)

  datatype Block = Block(phis: seq<PhiDef>, body: seq<Def>, term: Term, preds: seq<Node>)

  /** Where a value is defined: an argument, or a place in a block. */
  datatype Site = Argument | PhiSite(block: Node, index: nat) | BodySite(block: Node, index: nat)

  /** calls is what the values may be when the function is called: its executions start from there. */
  datatype Program = Program(blocks: map<Node, Block>, entry: Node, widths: map<Var, nat>, site: map<Var, Site>,
                             calls: iset<Env>)
  {
    function Targets(t: Term): seq<Node> {
      match t
      case Ret => []
      case Br(d) => [d]
      case CondBr(_, a, b) => [a, b]
      case Switch(_, d, cs) => [d] + CaseDests(cs)
    }

    function Cfg(): Graph { Graph(entry, map b | b in blocks :: Targets(blocks[b].term)) }

    function Mod(v: Var): (m: nat)
      ensures m > 0
    {
      if v in widths then Pow2(widths[v]) else 2
    }

    function OpMod(x: Operand): (m: nat)
      ensures m > 0
    {
      if x.Const? then Pow2(x.width) else Mod(x.v)
    }

    /** x is defined whenever instruction i of block b is reached. */
    ghost predicate Available(x: Operand, b: Node, i: nat) {
      match x
      case Const(c, w) => w > 0 && 0 <= c < Pow2(w)
      case Reg(v) =>
        && v in widths && v in site
        && match site[v]
           case Argument => true
           case PhiSite(a, _) => Dominates(Cfg(), a, b)
           case BodySite(a, k) => if a == b then k < i else Dominates(Cfg(), a, b)
    }

    /** v's definition dominates the end of b. */
    ghost predicate LiveOut(v: Var, b: Node) { b in blocks && Available(Reg(v), b, |blocks[b].body|) }

    predicate DefinedIn(v: Var, b: Node) { v in site && !site[v].Argument? && site[v].block == b }

    // ----- Well-formedness -----

    ghost predicate DefOK(b: Node, k: nat)
      requires b in blocks && k < |blocks[b].body|
    {
      var d := blocks[b].body[k];
      && d.v in widths && d.v in site && site[d.v] == BodySite(b, k)
      && match d.i
         case Bin(_, l, r) =>
           Available(l, b, k) && Available(r, b, k) && OpMod(l) == Mod(d.v) && OpMod(r) == Mod(d.v)
         case Cast(op, s) =>
           && Available(s, b, k) && s.Reg?
           && (op == Trunc ==> widths[d.v] < widths[s.v]) && (op == SExt || op == ZExt ==> widths[s.v] < widths[d.v])
           && (op == BitCast ==> widths[d.v] == widths[s.v])
         case ICmp(_, l, r) => Available(l, b, k) && Available(r, b, k) && OpMod(l) == OpMod(r) && widths[d.v] == 1
         case Opaque => true
    }

    ghost predicate PhiOK(b: Node, k: nat)
      requires b in blocks && k < |blocks[b].phis|
    {
      var p := blocks[b].phis[k];
      && p.v in widths && p.v in site && site[p.v] == PhiSite(b, k)
      && (forall j {:trigger p.incoming[j]} :: 0 <= j < |p.incoming| ==>
           p.incoming[j].from in blocks && Cfg().Edge(p.incoming[j].from, b)
           && Available(p.incoming[j].op, p.incoming[j].from, |blocks[p.incoming[j].from].body|)
           && OpMod(p.incoming[j].op) == Mod(p.v))
      && (forall q {:trigger q in blocks[b].preds} :: q in blocks[b].preds ==>
           exists j :: 0 <= j < |p.incoming| && p.incoming[j].from == q)
      && forall j, l :: 0 <= j < l < |p.incoming| && p.incoming[j].from == p.incoming[l].from ==>
           p.incoming[j].op == p.incoming[l].op
    }

    ghost predicate TermOK(b: Node)
      requires b in blocks
    {
      match blocks[b].term
      case Ret => true
      case Br(_) => true
      case CondBr(c, _, _) => Available(c, b, |blocks[b].body|) && OpMod(c) == 2
      case Switch(c, _, cs) =>
        && Available(c, b, |blocks[b].body|)
        && (forall j {:trigger cs[j]} :: 0 <= j < |cs| ==> 0 <= cs[j].val < OpMod(c))
        && forall j, l :: 0 <= j < l < |cs| ==> cs[j].val != cs[l].val
    }

    ghost predicate BlockOK(b: Node)
      requires b in blocks
    {
      && (forall k {:trigger blocks[b].body[k]} :: 0 <= k < |blocks[b].body| ==> DefOK(b, k))
      && (forall k {:trigger blocks[b].phis[k]} :: 0 <= k < |blocks[b].phis| ==> PhiOK(b, k))
      && TermOK(b)
      && (forall p {:trigger p in blocks[b].preds} :: p in blocks[b].preds <==> Cfg().Edge(p, b))
      && (b == entry ==> blocks[b].preds == [] && blocks[b].phis == [])
    }

    ghost predicate SiteOK(v: Var) {
      v in site &&
      match site[v]
      case Argument => true
      case PhiSite(b, k) => b in blocks && k < |blocks[b].phis| && blocks[b].phis[k].v == v
      case BodySite(b, k) => b in blocks && k < |blocks[b].body| && blocks[b].body[k].v == v
    }

    ghost predicate Valid() {
      && entry in blocks && Cfg().Valid()
      && (forall v {:trigger v in widths} :: v in widths ==> widths[v] > 0 && SiteOK(v))
      && (forall b {:trigger BlockOK(b)} :: b in blocks ==> BlockOK(b))
    }

    // ----- Execution -----

    function Val(x: Operand, env: Env): int {
      if x.Const? then x.c else if x.v in env then env[x.v] else 0
    }

    /** What an instruction may compute; any is what an opaque one happens to produce. */
    function Eval(i: Instr, m: nat, env: Env, any: int): int
      requires m > 0
    {
      match i
      case Bin(op, l, r) =>
        var x, y := Val(l, env), Val(r, env);
        (match op
         case Add => Wrap(x + y, m)
         case Sub => Wrap(x - y, m)
         case Mul => Wrap(x * y, m)
         case UDiv => if x < 0 || y <= 0 then Wrap(any, m) else Wrap(x / y, m)
         case Shl => if y < 0 then Wrap(any, m) else Wrap(x * Pow2(y), m)
         case LShr => if x < 0 || y < 0 then Wrap(any, m) else Wrap(x / Pow2(y), m)
         case And => if x < 0 || y < 0 then Wrap(any, m) else Wrap(BitAnd(x, y), m)
         case Or => if x < 0 || y < 0 then Wrap(any, m) else Wrap(BitOr(x, y), m)
         case OtherBin => Wrap(any, m))
      case Cast(op, s) =>
        var x := Val(s, env);
        (match op
         case Trunc => Wrap(x, m)
         case SExt => Wrap(SignExtendValue(x, OpMod(s), m), m)
         case ZExt => Wrap(x, m)
         case BitCast => Wrap(x, m)
         case OtherCast => Wrap(any, m))
      case ICmp(p, l, r) => if Compare(p, Val(l, env), Val(r, env), OpMod(l)) then Wrap(1, m) else 0
      case Opaque => Wrap(any, m)
    }

    function BodyEnv(body: seq<Def>, env: Env, any: map<Var, int>): Env {
      if body == [] then env
      else
        var d := body[|body| - 1];
        var e := BodyEnv(body[..|body| - 1], env, any);
        e[d.v := Eval(d.i, Mod(d.v), e, if d.v in any then any[d.v] else 0)]
    }

    function PickIncoming(inc: seq<Incoming>, p: Node): Operand {
      if inc == [] then Const(0, 1) else if inc[0].from == p then inc[0].op else PickIncoming(inc[1..], p)
    }

    /** All phis read the values at the end of the predecessor. */
    function PhiEnv(phis: seq<PhiDef>, p: Node, env: Env): Env {
      if phis == [] then env
      else
        var d := phis[|phis| - 1];
        PhiEnv(phis[..|phis| - 1], p, env)[d.v := Val(PickIncoming(d.incoming, p), env)]
    }

    function SwitchDest(cs: seq<SwitchCase>, default: Node, x: int): Node {
      if cs == [] then default else if cs[0].val == x then cs[0].dest else SwitchDest(cs[1..], default, x)
    }

    predicate Goes(b: Node, env: Env, dest: Node) {
      b in blocks &&
      match blocks[b].term
      case Ret => false
      case Br(d) => d == dest
      case CondBr(c, t, f) => dest == if Val(c, env) != 0 then t else f
      case Switch(c, d, cs) => dest == SwitchDest(cs, d, Val(c, env))
    }

    ghost predicate InRange(env: Env) {
      forall v {:trigger v in widths} :: v in widths ==> v in env && 0 <= env[v] < Mod(v)
    }
  }

  function CaseDests(cs: seq<SwitchCase>): seq<Node> {
    if cs == [] then [] else [cs[0].dest] + CaseDests(cs[1..])
  }

  /** A block that has just been executed, and the values at its end. */
  datatype Frame = Frame(block: Node, env: Env)

  /** The end of a block, entered from p with env. */
  function BlockEnv(pr: Program, b: Node, p: Node, env: Env, any: map<Var, int>): Env
    requires b in pr.blocks
  {
    pr.BodyEnv(pr.blocks[b].body, pr.PhiEnv(pr.blocks[b].phis, p, env), any)
  }

  ghost predicate StartsWith(pr: Program, f: Frame, env: Env, any: map<Var, int>) {
    && pr.entry in pr.blocks && f.block == pr.entry && pr.InRange(env) && env in pr.calls
    && f.env == pr.BodyEnv(pr.blocks[pr.entry].body, env, any)
  }

  ghost predicate Starts(pr: Program, f: Frame) { exists env: Env, any: map<Var, int> :: StartsWith(pr, f, env, any) }

  ghost predicate StepsWith(pr: Program, f: Frame, f': Frame, any: map<Var, int>) {
    && pr.Goes(f.block, f.env, f'.block) && f'.block in pr.blocks
    && f'.env == BlockEnv(pr, f'.block, f.block, f.env, any)
  }

  ghost predicate Steps(pr: Program, f: Frame, f': Frame) { exists any: map<Var, int> :: StepsWith(pr, f, f', any) }

  ghost predicate IsRun(pr: Program, r: seq<Frame>) {
    && |r| > 0 && Starts(pr, r[0])
    && forall i {:trigger r[i]} :: 0 < i < |r| ==> Steps(pr, r[i - 1], r[i])
  }

  function Last(r: seq<Frame>): Frame
    requires |r| > 0
  {
    r[|r| - 1]
  }

  // ----- Runs follow paths -----

  lemma GoesIsEdge(pr: Program, b: Node, env: Env, dest: Node)
    requires pr.Goes(b, env, dest)
    ensures pr.Cfg().Edge(b, dest)
  {
    match pr.blocks[b].term
    case Switch(c, d, cs) => SwitchDestIsCase(pr, cs, d, pr.Val(c, env));
    case _ =>
  }

  lemma {:induction false} SwitchDestIsCase(pr: Program, cs: seq<SwitchCase>, d: Node, x: int)
    ensures pr.SwitchDest(cs, d, x) in [d] + CaseDests(cs)
  {
    if cs != [] && cs[0].val != x { SwitchDestIsCase(pr, cs[1..], d, x); }
  }

  function Blocks(r: seq<Frame>): seq<Node> { seq(|r|, i requires 0 <= i < |r| => r[i].block) }

  lemma RunIsPath(pr: Program, r: seq<Frame>)
    requires IsRun(pr, r)
    ensures PathTo(pr.Cfg(), Blocks(r), Last(r).block)
  {
    var p := Blocks(r);
    forall i | 0 <= i < |p| - 1 ensures pr.Cfg().Edge(p[i], p[i + 1]) {
      assert Steps(pr, r[i + 1 - 1], r[i + 1]);
      GoesIsEdge(pr, r[i].block, r[i].env, r[i + 1].block);
    }
  }

  lemma RunPrefix(pr: Program, r: seq<Frame>)
    requires IsRun(pr, r) && |r| > 1
    ensures IsRun(pr, r[..|r| - 1]) && Steps(pr, Last(r[..|r| - 1]), Last(r))
  {
    var q := r[..|r| - 1];
    assert Steps(pr, r[|r| - 1 - 1], r[|r| - 1]);
    forall i | 0 < i < |q| ensures Steps(pr, q[i - 1], q[i]) {
      assert q[i] == r[i] && q[i - 1] == r[i - 1];
    }
  }

  // ----- One block -----

  /** Execution of a body leaves what it does not define alone. */
  lemma {:induction false} BodyLeaves(pr: Program, body: seq<Def>, env: Env, any: map<Var, int>, v: Var)
    requires forall k {:trigger body[k]} :: 0 <= k < |body| ==> body[k].v != v
    ensures var e := pr.BodyEnv(body, env, any); (v in e <==> v in env) && (v in e ==> e[v] == env[v])
  {
    if body != [] { BodyLeaves(pr, body[..|body| - 1], env, any, v); }
  }

  lemma {:induction false} PhiLeaves(pr: Program, phis: seq<PhiDef>, p: Node, env: Env, v: Var)
    requires forall k {:trigger phis[k]} :: 0 <= k < |phis| ==> phis[k].v != v
    ensures var e := pr.PhiEnv(phis, p, env); (v in e <==> v in env) && (v in e ==> e[v] == env[v])
  {
    if phis != [] { PhiLeaves(pr, phis[..|phis| - 1], p, env, v); }
  }

  /** Each phi holds its operand's old value. */
  lemma {:induction false} PhiHolds(pr: Program, phis: seq<PhiDef>, p: Node, env: Env, k: nat)
    requires k < |phis| && forall i, j {:trigger phis[i], phis[j]} :: 0 <= i < j < |phis| ==> phis[i].v != phis[j].v
    ensures var e := pr.PhiEnv(phis, p, env);
            phis[k].v in e && e[phis[k].v] == pr.Val(pr.PickIncoming(phis[k].incoming, p), env)
  {
    var n := |phis| - 1;
    if k < n {
      var q := phis[..n];
      assert q[k] == phis[k];
      assert phis[k].v != phis[n].v;
      PhiHolds(pr, q, p, env, k);
    }
  }

  /** The operands an instruction reads. */
  function Reads(i: Instr): set<Operand> {
    match i
    case Bin(_, l, r) => {l, r}
    case Cast(_, s) => {s}
    case ICmp(_, l, r) => {l, r}
    case Opaque => {}
  }

  lemma EvalSame(pr: Program, i: Instr, m: nat, e: Env, e': Env, any: int)
    requires m > 0 && forall x {:trigger x in Reads(i)} :: x in Reads(i) ==> pr.Val(x, e) == pr.Val(x, e')
    ensures pr.Eval(i, m, e, any) == pr.Eval(i, m, e', any)
  {
    match i
    case Bin(_, l, r) => assert l in Reads(i) && r in Reads(i);
    case Cast(_, s) => assert s in Reads(i);
    case ICmp(_, l, r) => assert l in Reads(i) && r in Reads(i);
    case Opaque =>
  }

  /** Nothing defined from position k on is read at k. */
  ghost predicate ReadsEarlier(body: seq<Def>, k: nat)
    requires k < |body|
  {
    forall j, x {:trigger body[j], x in Reads(body[k].i)} :: k <= j < |body| && x in Reads(body[k].i) ==> x != Reg(body[j].v)
  }

  /** v's value at the end of a body is what its instruction computes from the values at the end. */
  lemma {:induction false} BodyHolds(pr: Program, body: seq<Def>, env: Env, any: map<Var, int>, k: nat) returns (a: int)
    requires k < |body| && ReadsEarlier(body, k)
    requires forall i, j {:trigger body[i], body[j]} :: 0 <= i < j < |body| ==> body[i].v != body[j].v
    ensures var e := pr.BodyEnv(body, env, any); var d := body[k];
            d.v in e && e[d.v] == pr.Eval(d.i, pr.Mod(d.v), e, a)
  {
    var n := |body| - 1;
    var d := body[k];
    var e0 := pr.BodyEnv(body[..n], env, any);
    var e := pr.BodyEnv(body, env, any);
    if k == n {
      a := if d.v in any then any[d.v] else 0;
    } else {
      assert body[..n][k] == d;
      assert d.v != body[n].v;
      assert ReadsEarlier(body[..n], k) by {
        forall j, x | k <= j < n && x in Reads(d.i) ensures x != Reg(body[..n][j].v) { assert body[..n][j] == body[j]; }
      }
      a := BodyHolds(pr, body[..n], env, any, k);
    }
    forall x | x in Reads(d.i) ensures pr.Val(x, e0) == pr.Val(x, e) {
      assert x != Reg(body[n].v);
    }
    EvalSame(pr, d.i, pr.Mod(d.v), e0, e, a);
  }

  lemma {:induction false} BodyInRange(pr: Program, body: seq<Def>, env: Env, any: map<Var, int>)
    requires pr.InRange(env) && forall k {:trigger body[k]} :: 0 <= k < |body| ==> body[k].v in pr.widths && pr.widths[body[k].v] > 0
    ensures pr.InRange(pr.BodyEnv(body, env, any))
  {
    if body != [] {
      var n := |body| - 1;
      BodyInRange(pr, body[..n], env, any);
      var e := pr.BodyEnv(body[..n], env, any);
      EvalInRange(pr, body[n].i, pr.Mod(body[n].v), e, if body[n].v in any then any[body[n].v] else 0);
    }
  }

  lemma EvalInRange(pr: Program, i: Instr, m: nat, env: Env, any: int)
    requires m > 0
    ensures 0 <= pr.Eval(i, m, env, any) < m
  {
  }

  lemma {:induction false} PhiInRange(pr: Program, b: Node, phis: seq<PhiDef>, p: Node, env: Env)
    requires pr.Valid() && b in pr.blocks && pr.Cfg().Edge(p, b) && pr.InRange(env) && phis <= pr.blocks[b].phis
    ensures pr.InRange(pr.PhiEnv(phis, p, env))
  {
    if phis != [] {
      var n := |phis| - 1;
      PhiInRange(pr, b, phis[..n], p, env);
      assert pr.blocks[b].phis[n] == phis[n];
      PhiOperand(pr, b, n, p);
      OperandInRange(pr, pr.PickIncoming(phis[n].incoming, p), p, |pr.blocks[p].body|, env);
    }
  }

  lemma OperandInRange(pr: Program, x: Operand, b: Node, i: nat, env: Env)
    requires pr.Valid() && pr.Available(x, b, i) && pr.InRange(env)
    ensures 0 <= pr.Val(x, env) < pr.OpMod(x)
  {
  }

  /** The entry of a phi for a predecessor is one of its entries for it. */
  lemma PhiOperand(pr: Program, b: Node, k: nat, p: Node)
    requires pr.Valid() && b in pr.blocks && k < |pr.blocks[b].phis| && pr.Cfg().Edge(p, b)
    ensures p in pr.blocks
    ensures var phi := pr.blocks[b].phis[k]; var x := pr.PickIncoming(phi.incoming, p);
            && Incoming(p, x) in phi.incoming && pr.Available(x, p, |pr.blocks[p].body|) && pr.OpMod(x) == pr.Mod(phi.v)
            && forall j :: 0 <= j < |phi.incoming| && phi.incoming[j].from == p ==> phi.incoming[j].op == x
  {
    assert pr.BlockOK(b) && p in pr.blocks[b].preds;
    var phi := pr.blocks[b].phis[k];
    assert pr.PhiOK(b, k);
    var j :| 0 <= j < |phi.incoming| && phi.incoming[j].from == p;
    var l := PickFound(pr, phi.incoming, p, j);
    assert phi.incoming[l].from == p;
  }

  lemma {:induction false} PickFound(pr: Program, inc: seq<Incoming>, p: Node, j: nat) returns (l: nat)
    requires j < |inc| && inc[j].from == p
    ensures l < |inc| && inc[l] == Incoming(p, pr.PickIncoming(inc, p))
  {
    if inc[0].from == p { l := 0; } else {
      l := PickFound(pr, inc[1..], p, j - 1);
      l := l + 1;
    }
  }

  // ----- From one block to the next -----

  lemma BodySites(pr: Program, b: Node)
    requires pr.Valid() && b in pr.blocks
    ensures forall k {:trigger pr.blocks[b].body[k]} :: 0 <= k < |pr.blocks[b].body| ==>
              pr.blocks[b].body[k].v in pr.widths && pr.site[pr.blocks[b].body[k].v] == BodySite(b, k)
              && pr.widths[pr.blocks[b].body[k].v] > 0
    ensures forall k {:trigger pr.blocks[b].phis[k]} :: 0 <= k < |pr.blocks[b].phis| ==>
              pr.blocks[b].phis[k].v in pr.widths && pr.site[pr.blocks[b].phis[k].v] == PhiSite(b, k)
  {
    assert pr.BlockOK(b);
    forall k | 0 <= k < |pr.blocks[b].body|
      ensures pr.blocks[b].body[k].v in pr.widths && pr.site[pr.blocks[b].body[k].v] == BodySite(b, k)
              && pr.widths[pr.blocks[b].body[k].v] > 0
    {
      assert pr.DefOK(b, k);
    }
    forall k | 0 <= k < |pr.blocks[b].phis|
      ensures pr.blocks[b].phis[k].v in pr.widths && pr.site[pr.blocks[b].phis[k].v] == PhiSite(b, k)
    {
      assert pr.PhiOK(b, k);
    }
  }

  lemma Unchanged(pr: Program, b: Node, p: Node, env: Env, any: map<Var, int>, v: Var)
    requires pr.Valid() && b in pr.blocks && v in pr.widths && !pr.DefinedIn(v, b)
    ensures pr.Val(Reg(v), BlockEnv(pr, b, p, env, any)) == pr.Val(Reg(v), env)
  {
    BodySites(pr, b);
    BodyLeaves(pr, pr.blocks[b].body, pr.PhiEnv(pr.blocks[b].phis, p, env), any, v);
    PhiLeaves(pr, pr.blocks[b].phis, p, env, v);
  }

  /** The equation of v's definition, read off the values at hand. */
  ghost predicate EquationHolds(pr: Program, v: Var, env: Env) {
    v in pr.site && pr.site[v].BodySite? &&
    var b, k := pr.site[v].block, pr.site[v].index;
    && b in pr.blocks && k < |pr.blocks[b].body|
    && exists a: int :: EquationWith(pr, pr.blocks[b].body[k].i, v, env, a)
  }

  ghost predicate EquationWith(pr: Program, i: Instr, v: Var, env: Env, a: int) {
    v in env && env[v] == pr.Eval(i, pr.Mod(v), env, a)
  }

  lemma ReadsAreEarlier(pr: Program, b: Node, k: nat)
    requires pr.Valid() && b in pr.blocks && k < |pr.blocks[b].body|
    ensures ReadsEarlier(pr.blocks[b].body, k)
  {
    var body := pr.blocks[b].body;
    assert pr.BlockOK(b);
    assert body[k] == pr.blocks[b].body[k];
    assert pr.DefOK(b, k);
    forall j, x | k <= j < |body| && x in Reads(body[k].i) ensures x != Reg(body[j].v) {
      assert pr.DefOK(b, j);
      assert pr.Available(x, b, k);
    }
  }

  lemma BodyDefines(pr: Program, b: Node, env: Env, any: map<Var, int>, v: Var)
    requires pr.Valid() && b in pr.blocks && v in pr.widths && pr.site[v].BodySite? && pr.site[v].block == b
    ensures EquationHolds(pr, v, pr.BodyEnv(pr.blocks[b].body, env, any))
  {
    var k := pr.site[v].index;
    var body := pr.blocks[b].body;
    assert pr.SiteOK(v);
    BodySites(pr, b);
    ReadsAreEarlier(pr, b, k);
    var a := BodyHolds(pr, body, env, any, k);
    assert EquationWith(pr, body[k].i, v, pr.BodyEnv(body, env, any), a);
  }

  lemma PhiDefines(pr: Program, b: Node, p: Node, env: Env, any: map<Var, int>, k: nat)
    requires pr.Valid() && b in pr.blocks && k < |pr.blocks[b].phis|
    ensures var phi := pr.blocks[b].phis[k];
            pr.Val(Reg(phi.v), BlockEnv(pr, b, p, env, any)) == pr.Val(pr.PickIncoming(phi.incoming, p), env)
  {
    var phi := pr.blocks[b].phis[k];
    BodySites(pr, b);
    PhiHolds(pr, pr.blocks[b].phis, p, env, k);
    BodyLeaves(pr, pr.blocks[b].body, pr.PhiEnv(pr.blocks[b].phis, p, env), any, phi.v);
  }

  // ----- Whole runs -----

  lemma {:induction false} RunInRange(pr: Program, r: seq<Frame>)
    requires pr.Valid() && IsRun(pr, r)
    ensures pr.InRange(Last(r).env)
  {
    var b := Last(r).block;
    if |r| == 1 {
      var env, any :| StartsWith(pr, Last(r), env, any);
      BodySites(pr, b);
      BodyInRange(pr, pr.blocks[b].body, env, any);
    } else {
      var q := r[..|r| - 1];
      RunPrefix(pr, r);
      RunInRange(pr, q);
      var p := Last(q);
      GoesIsEdge(pr, p.block, p.env, b);
      var any :| StepsWith(pr, p, Last(r), any);
      PhiInRange(pr, b, pr.blocks[b].phis, p.block, p.env);
      BodySites(pr, b);
      BodyInRange(pr, pr.blocks[b].body, pr.PhiEnv(pr.blocks[b].phis, p.block, p.env), any);
    }
  }

  /** An equation survives a block that defines neither side of it. */
  lemma EquationKept(pr: Program, v: Var, b: Node, p: Node, env: Env, any: map<Var, int>)
    requires pr.Valid() && b in pr.blocks && v in pr.widths && EquationHolds(pr, v, env) && pr.InRange(env)
    requires pr.InRange(BlockEnv(pr, b, p, env, any))
    requires !pr.DefinedIn(v, b)
    requires var i := pr.blocks[pr.site[v].block].body[pr.site[v].index].i;
             forall x {:trigger x in Reads(i)} :: x in Reads(i) && x.Reg? ==> x.v in pr.widths && !pr.DefinedIn(x.v, b)
    ensures EquationHolds(pr, v, BlockEnv(pr, b, p, env, any))
  {
    var i := pr.blocks[pr.site[v].block].body[pr.site[v].index].i;
    var e := BlockEnv(pr, b, p, env, any);
    var a :| EquationWith(pr, i, v, env, a);
    Unchanged(pr, b, p, env, any, v);
    forall x | x in Reads(i) ensures pr.Val(x, env) == pr.Val(x, e) {
      if x.Reg? { Unchanged(pr, b, p, env, any, x.v); }
    }
    EvalSame(pr, i, pr.Mod(v), env, e, a);
    assert v in e;
    assert EquationWith(pr, i, v, e, a);
  }

  /** What v's definition reads is not defined in a block that v's own block strictly dominates. */
  lemma OperandsElsewhere(pr: Program, v: Var, b: Node)
    requires pr.Valid() && v in pr.widths && pr.site[v].BodySite? && Reachable(pr.Cfg(), b)
    requires StrictlyDominates(pr.Cfg(), pr.site[v].block, b)
    ensures pr.SiteOK(v)
    ensures var i := pr.blocks[pr.site[v].block].body[pr.site[v].index].i;
            forall x {:trigger x in Reads(i)} :: x in Reads(i) && x.Reg? ==> x.v in pr.widths && !pr.DefinedIn(x.v, b)
  {
    assert pr.SiteOK(v);
    var a, k := pr.site[v].block, pr.site[v].index;
    var i := pr.blocks[a].body[k].i;
    assert pr.BlockOK(a);
    assert pr.blocks[a].body[k].v == v;
    assert pr.DefOK(a, k);
    forall x | x in Reads(i) && x.Reg? ensures x.v in pr.widths && !pr.DefinedIn(x.v, b) {
      assert pr.Available(x, a, k);
      if pr.DefinedIn(x.v, b) {
        assert Dominates(pr.Cfg(), b, a);
        Antisymmetric(pr.Cfg(), a, b);
      }
    }
  }

  /** Wherever a definition dominates, its equation holds at the end of the block, on every run. */
  lemma {:induction false} EquationsHold(pr: Program, r: seq<Frame>, v: Var)
    requires |r| > 0 && pr.Valid() && IsRun(pr, r) && v in pr.widths && v in pr.site && pr.site[v].BodySite?
    requires Dominates(pr.Cfg(), pr.site[v].block, Last(r).block)
    ensures EquationHolds(pr, v, Last(r).env)
    decreases |r|
  {
    hide EquationHolds, Program.Valid, Program.BodyEnv, Dominates, IsRun, BlockEnv, Program.Cfg;
    if |r| == 1 {
      EquationStart(pr, r, v);
    } else {
      RunPrefix(pr, r);
      var q := r[..|r| - 1];
      var any :| StepsWith(pr, Last(q), Last(r), any);
      GoesIsEdge(pr, Last(q).block, Last(q).env, Last(r).block);
      if pr.site[v].block == Last(r).block {
        EquationFresh(pr, v, Last(q), Last(r), any);
      } else {
        DominatesPred(pr.Cfg(), pr.site[v].block, Last(q).block, Last(r).block);
        EquationsHold(pr, q, v);
        RunInRange(pr, r);
        RunInRange(pr, q);
        RunReaches(pr, r);
        EquationStep(pr, v, Last(q), Last(r), any);
      }
    }
  }

  lemma RunReaches(pr: Program, r: seq<Frame>)
    requires IsRun(pr, r)
    ensures Reachable(pr.Cfg(), Last(r).block)
  {
    RunIsPath(pr, r);
  }

  lemma EquationStart(pr: Program, r: seq<Frame>, v: Var)
    requires pr.Valid() && IsRun(pr, r) && |r| == 1 && v in pr.widths && v in pr.site && pr.site[v].BodySite?
    requires Dominates(pr.Cfg(), pr.site[v].block, Last(r).block)
    ensures EquationHolds(pr, v, Last(r).env)
  {
    RunIsPath(pr, r);
    assert Blocks(r) == [Last(r).block];
    var env, any :| StartsWith(pr, Last(r), env, any);
    BodyDefines(pr, Last(r).block, env, any, v);
  }

  lemma EquationFresh(pr: Program, v: Var, p: Frame, f: Frame, any: map<Var, int>)
    requires pr.Valid() && v in pr.widths && v in pr.site && pr.site[v].BodySite? && pr.site[v].block == f.block
    requires StepsWith(pr, p, f, any)
    ensures EquationHolds(pr, v, f.env)
  {
    BodyDefines(pr, f.block, pr.PhiEnv(pr.blocks[f.block].phis, p.block, p.env), any, v);
  }

  lemma EquationStep(pr: Program, v: Var, p: Frame, f: Frame, any: map<Var, int>)
    requires pr.Valid() && v in pr.widths && v in pr.site && pr.site[v].BodySite? && Reachable(pr.Cfg(), f.block)
    requires StepsWith(pr, p, f, any) && pr.InRange(p.env) && pr.InRange(f.env)
    requires StrictlyDominates(pr.Cfg(), pr.site[v].block, f.block) && EquationHolds(pr, v, p.env)
    ensures EquationHolds(pr, v, f.env)
  {
    OperandsElsewhere(pr, v, f.block);
    EquationKept(pr, v, f.block, p.block, p.env, any);
  }
}
