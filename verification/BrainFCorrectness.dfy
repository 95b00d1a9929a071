/** Code tied to a text behaves like the text: the two machines, started in step, get back in step after
    every command, for ever or until both stop. */
module BrainFCorrectness {
  import opened Options
  import opened BrainFSource
  import opened BrainFIR
  import opened BrainFSync
  import Src = BrainFSource
  import Ir = BrainFIR

  /** The text does not look at the tape before it moves: it has no command, or a move is its first. */
  predicate MovesFirst(t: string, x: nat)
    requires x <= |t|
  {
    var k := Skip(t, x);
    k == |t| || IsMove(t[k])
  }

  /** One compiled program in one surrounding: the text, its code, and the machine it runs on. If safe is set, we also
      follow in checked mode that the head stays on the tape. */
  datatype Job = Job(t: string, c: Target, f: Func, S: map<nat, Point>, base: int, size: nat, input: nat -> int, safe: bool)
  {
    ghost predicate Compiled() {
      && c.final.Some? && Footer(c, f) && (safe ==> c.checked)
      && forall x {:trigger SyncedAt(t, c, f, S, x)} :: x in S ==> SyncedAt(t, c, f, S, x)
    }

    function Ref(): Src.Setting { Src.Setting(c.checked, base, base + size, input) }

    function Mach(): Ir.Env { Ir.Env(base, input) }

    function SrcRun(s: Src.State, n: nat): Src.State { Src.Run(t, Ref(), s, n) }

    function IrRun(u: Ir.State, n: nat): Ir.State { Ir.Run(f, Mach(), u, n) }

    lemma IrThen(u: Ir.State, m: nat, n: nat)
      ensures IrRun(u, m + n) == IrRun(IrRun(u, m), n)
    {
      Ir.RunAdd(f, Mach(), u, m, n);
    }

    lemma SrcThen(s: Src.State, m: nat, n: nat)
      ensures SrcRun(s, m + n) == SrcRun(SrcRun(s, m), n)
    {
      Src.RunAdd(t, Ref(), s, m, n);
    }

    predicate OnTape(a: int) { base <= a < base + size }

    /** If that is followed: every access so far was to allocated memory. */
    ghost predicate Safe(m: Mem) {
      safe ==> !m.stray
    }

    /** The tape's bounds and the head are where the code expects them. */
    ghost predicate Holds(m: Mem, head: int, w: World, r: Reg) {
      Carries(m, head, w, r) && (safe ==> OnTape(head))
    }

    ghost predicate Carries(m: Mem, head: int, w: World, r: Reg) {
      Tape(m) && r in m.regs && m.regs[r] == head && ARRMAX < r && m.w == w
    }

    ghost predicate Tape(m: Mem) {
      && ARR in m.regs && m.regs[ARR] == base && m.lo == base && m.hi == base + size
      && (c.checked ==> ARRMAX in m.regs && m.regs[ARRMAX] == base + size)
      && Safe(m)
    }

    ghost predicate InStep(s: Src.State, u: Ir.State) {
      && s.Running? && u.At? && s.pc in S
      && S[s.pc].block == u.block && S[s.pc].index == u.index
      && Holds(u.m, s.head, s.w, S[s.pc].head)
    }

    /** In step, or about to find out by a move that the head is not on the tape. */
    ghost predicate Starts(s: Src.State, u: Ir.State) {
      && s.Running? && u.At? && s.pc in S && s.pc <= |t|
      && S[s.pc].block == u.block && S[s.pc].index == u.index
      && Carries(u.m, s.head, s.w, S[s.pc].head)
      && (safe ==> OnTape(s.head) || MovesFirst(t, s.pc))
    }

    /** Both have stopped, having done the same; a program that ran to its end leaves its head in the final register. */
    ghost predicate BothStopped(s: Src.State, u: Ir.State) {
      && !s.Running? && u.Halted? && u.m.w == s.w && Safe(u.m)
      && (s.Finished? ==> c.final.Some? && c.final.value in u.m.regs && u.m.regs[c.final.value] == s.head)
      && (s.LeftTape? ==> c.checked && !OnTape(s.head))
    }
  }

  /** The memory after the tape has been given back. */
  function Freed(m: Mem): Mem { m.(lo := 0, hi := 0) }

  // ----- Three instructions -----

  lemma {:induction false} ThreeInstrs(j: Job, u: Ir.State, b: seq<Instr>) returns (m1: Mem, m2: Mem, m3: Mem)
    requires u.At? && u.block < |j.f| && b == j.f[u.block].instrs && u.index + 3 <= |b|
    requires b[u.index].Uses() <= u.m.regs.Keys
    requires var m1 := Exec(b[u.index], j.Mach(), u.m);
             && b[u.index + 1].Uses() <= m1.regs.Keys
             && b[u.index + 2].Uses() <= Exec(b[u.index + 1], j.Mach(), m1).regs.Keys
    ensures m1 == Exec(b[u.index], j.Mach(), u.m)
    ensures b[u.index + 1].Uses() <= m1.regs.Keys && m2 == Exec(b[u.index + 1], j.Mach(), m1)
    ensures b[u.index + 2].Uses() <= m2.regs.Keys && m3 == Exec(b[u.index + 2], j.Mach(), m2)
    ensures j.IrRun(u, 3) == At(u.block, u.index + 3, m3)
  {
    m1 := Exec(b[u.index], j.Mach(), u.m);
    m2 := Exec(b[u.index + 1], j.Mach(), m1);
    m3 := Exec(b[u.index + 2], j.Mach(), m2);
    var u1 := At(u.block, u.index + 1, m1);
    var u2 := At(u.block, u.index + 2, m2);
    Step1(j.f, j.Mach(), u);
    Step1(j.f, j.Mach(), u1);
    Step1(j.f, j.Mach(), u2);
    j.IrThen(u, 1, 1);
    j.IrThen(u, 2, 1);
  }

  lemma RunRead(j: Job, u: Ir.State, h: Reg, head: int, w: World) returns (m: nat)
    requires u.At? && u.block < |j.f| && ReadCode(j.f[u.block].instrs, u.index, h) && j.Holds(u.m, head, w, h)
    ensures m >= 1
    ensures var v := j.IrRun(u, m);
            var x := j.input(w.consumed);
            v.At? && v.block == u.block && v.index == u.index + 3
            && j.Holds(v.m, head, World(w.tape[head := x % 256], w.consumed + 1, w.events + [In(x)]), h)
            && (v.m.stray <==> u.m.stray || !j.OnTape(head))
  {
    hide Job.IrRun;
    m := 3;
    var m1, m2, m3 := ThreeInstrs(j, u, j.f[u.block].instrs);
  }

  lemma RunWrite(j: Job, u: Ir.State, h: Reg, head: int, w: World) returns (m: nat)
    requires u.At? && u.block < |j.f| && WriteCode(j.f[u.block].instrs, u.index, h) && j.Holds(u.m, head, w, h)
    ensures m >= 1
    ensures var v := j.IrRun(u, m);
            v.At? && v.block == u.block && v.index == u.index + 3
            && j.Holds(v.m, head, w.(events := w.events + [Out(w.Cell(head))]), h) && (v.m.stray <==> u.m.stray || !j.OnTape(head))
  {
    hide Job.IrRun;
    m := 3;
    var m1, m2, m3 := ThreeInstrs(j, u, j.f[u.block].instrs);
  }

  lemma RunChange(j: Job, u: Ir.State, h: Reg, head: int, w: World, n: int) returns (m: nat)
    requires u.At? && u.block < |j.f| && ChangeCode(j.f[u.block].instrs, u.index, h, n) && j.Holds(u.m, head, w, h)
    ensures m >= 1
    ensures var v := j.IrRun(u, m);
            v.At? && v.block == u.block && v.index == u.index + 3
            && j.Holds(v.m, head, w.(tape := w.tape[head := (w.Cell(head) + n) % 256]), h) && (v.m.stray <==> u.m.stray || !j.OnTape(head))
  {
    hide Job.IrRun;
    var m1, m2, m3 := ThreeInstrs(j, u, j.f[u.block].instrs);
    m := 3;
  }

  // ----- Moves -----

  lemma GotoPlain(f: Func, p: nat, b: nat, m: Mem)
    requires b < |f| && f[b].phis == []
    ensures Goto(f, p, b, m) == At(b, 0, m)
  {
    assert m.regs + map[] == m.regs;
  }

  lemma RunPlainMove(j: Job, u: Ir.State, h: Reg, head: int, w: World, n: int)
    requires u.At? && u.block < |j.f| && MoveCode(j.f[u.block].instrs, u.index, h, n) && j.Carries(u.m, head, w, h)
    ensures var v := j.IrRun(u, 1);
            var d := j.f[u.block].instrs[u.index].dst;
            v.At? && v.block == u.block && v.index == u.index + 1
            && j.Tape(v.m) && d in v.m.regs && v.m.regs[d] == head + n && v.m.w == w
  {
    Step1(j.f, j.Mach(), u);
  }

  /** The three comparisons decide whether the head is off the tape. */
  lemma RunCheck(j: Job, u: Ir.State, h: Reg, head: int, w: World)
    requires j.c.checked
    requires u.At? && u.block < |j.f| && CheckCode(j.f[u.block].instrs, u.index, h)
    requires j.Tape(u.m) && h in u.m.regs && u.m.regs[h] == head && u.m.w == w
    ensures var v := j.IrRun(u, 3);
            var d := j.f[u.block].instrs[u.index + 2].dst;
            v.At? && v.block == u.block && v.index == u.index + 3
            && j.Tape(v.m) && h in v.m.regs && v.m.regs[h] == head && v.m.w == w
            && d in v.m.regs && v.m.regs[d] == Bit(!j.OnTape(head))
  {
    hide Job.IrRun;
    var m1, m2, m3 := ThreeInstrs(j, u, j.f[u.block].instrs);
  }

  /** From the abort block the program prints its message and stops without touching the tape. */
  lemma RunAbort(j: Job, m: Mem)
    requires j.c.checked && Footer(j.c, j.f) && j.Tape(m)
    ensures j.IrRun(At(j.c.aberrorbb, 0, m), 4) == Halted(Freed(m).(w := m.w.(events := m.w.events + [Message])))
  {
    var m' := m.(w := m.w.(events := m.w.events + [Message]));
    var u := At(j.c.aberrorbb, 0, m);
    Step1(j.f, j.Mach(), u);
    Step1Term(j.f, j.Mach(), At(j.c.aberrorbb, 1, m'));
    GotoPlain(j.f, j.c.aberrorbb, j.c.endbb, m');
    j.IrThen(u, 1, 1);
    RunFooter(j, m');
    j.IrThen(u, 2, 2);
  }

  lemma RunFooter(j: Job, m: Mem)
    requires Footer(j.c, j.f) && ARR in m.regs
    ensures j.IrRun(At(j.c.endbb, 0, m), 2) == Halted(Freed(m))
  {
    var u := At(j.c.endbb, 0, m);
    Step1(j.f, j.Mach(), u);
    Step1Term(j.f, j.Mach(), At(j.c.endbb, 1, Freed(m)));
    j.IrThen(u, 1, 1);
  }

  /** A guarded move ends in the next block with the head on the tape, or stops with the message. */
  lemma RunGuarded(j: Job, u: Ir.State, h: Reg, head: int, w: World, n: int, q: Point) returns (k: nat)
    requires j.c.checked && Footer(j.c, j.f)
    requires u.At? && u.block < |j.f| && GuardedMove(j.f, j.c, Point(u.block, u.index, h), n, q)
    requires j.Carries(u.m, head, w, h)
    ensures k >= 1
    ensures var v := j.IrRun(u, k);
            if j.OnTape(head + n) then v.At? && v.block == q.block && v.index == q.index && j.Holds(v.m, head + n, w, q.head)
            else v.Halted? && v.m.w == w.(events := w.events + [Message]) && j.Safe(v.m)
  {
    RunPlainMove(j, u, h, head, w, n);
    var v1 := j.IrRun(u, 1);
    RunCheck(j, v1, q.head, head + n, w);
    j.IrThen(u, 1, 3);
    var v2 := j.IrRun(u, 4);
    Step1Term(j.f, j.Mach(), v2);
    j.IrThen(u, 4, 1);
    if j.OnTape(head + n) {
      GotoPlain(j.f, u.block, q.block, v2.m);
      k := 5;
    } else {
      GotoPlain(j.f, u.block, j.c.aberrorbb, v2.m);
      RunAbort(j, v2.m);
      j.IrThen(u, 5, 4);
      k := 9;
    }
  }

  // ----- Loop tests -----

  lemma GotoOnePhi(f: Func, p: nat, b: nat, m: Mem)
    requires b < |f| && |f[b].phis| == 1
    requires Pick(f[b].phis[0].incoming, p).Some? && Pick(f[b].phis[0].incoming, p).value in m.regs
    ensures Goto(f, p, b, m) == At(b, 0, Def(m, f[b].phis[0].dst, m.regs[Pick(f[b].phis[0].incoming, p).value]))
  {
    var r := Pick(f[b].phis[0].incoming, p).value;
    assert PhiMoves(f[b].phis[1..], p, m.regs) == Some(map[]);
    assert PhiMoves(f[b].phis, p, m.regs) == Some(map[f[b].phis[0].dst := m.regs[r]]);
    assert m.regs + map[f[b].phis[0].dst := m.regs[r]] == m.regs[f[b].phis[0].dst := m.regs[r]];
  }

  /** Into the test block: the phi receives the head, the cell is loaded and compared. */
  lemma RunIntoTest(j: Job, u: Ir.State, r: Reg, head: int, w: World, body: Point, exit: Point) returns (t: nat)
    requires u.At? && TestCode(j.f, Point(u.block, u.index, r), body, exit) && j.Holds(u.m, head, w, r)
    ensures t < |j.f| && TestBlock(j.f, t, body, exit)
    ensures var v := j.IrRun(u, 3);
            v.At? && v.block == t && v.index == 2 && j.Holds(v.m, head, w, j.f[t].phis[0].dst)
            && (v.m.stray <==> u.m.stray || !j.OnTape(head))
            && var c := j.f[t].instrs[1].dst; c in v.m.regs && v.m.regs[c] == Bit(w.Cell(head) == 0)
  {
    t := j.f[u.block].term.value.target;
    Step1Term(j.f, j.Mach(), u);
    GotoOnePhi(j.f, u.block, t, u.m);
    var h := j.f[t].phis[0].dst;
    var m1 := Def(u.m, h, head);
    var m2 := Exec(j.f[t].instrs[0], j.Mach(), m1);
    Step1(j.f, j.Mach(), At(t, 0, m1));
    Step1(j.f, j.Mach(), At(t, 1, m2));
    j.IrThen(u, 1, 1);
    j.IrThen(u, 2, 1);
  }

  lemma RunTest(j: Job, u: Ir.State, r: Reg, head: int, w: World, body: Point, exit: Point) returns (m: nat)
    requires u.At? && TestCode(j.f, Point(u.block, u.index, r), body, exit) && j.Holds(u.m, head, w, r)
    ensures m >= 1
    ensures var v := j.IrRun(u, m);
            var q := if w.Cell(head) == 0 then exit else body;
            v.At? && v.block == q.block && v.index == q.index && j.Holds(v.m, head, w, q.head)
  {
    var t := RunIntoTest(j, u, r, head, w, body, exit);
    var v := j.IrRun(u, 3);
    Step1Term(j.f, j.Mach(), v);
    j.IrThen(u, 3, 1);
    if w.Cell(head) == 0 {
      LeaveToExit(j, v, t, head, w, body, exit);
    } else {
      GotoPlain(j.f, t, body.block, v.m);
    }
    m := 4;
  }

  lemma LeaveToExit(j: Job, v: Ir.State, t: nat, head: int, w: World, body: Point, exit: Point)
    requires v.At? && t < |j.f| && TestBlock(j.f, t, body, exit) && j.Holds(v.m, head, w, j.f[t].phis[0].dst)
    ensures var x := Goto(j.f, t, exit.block, v.m);
            x.At? && x.block == exit.block && x.index == 0 && j.Holds(x.m, head, w, exit.head)
  {
    assert Pick([Incoming(j.f[t].phis[0].dst, t)], t) == Some(j.f[t].phis[0].dst);
    GotoOnePhi(j.f, t, exit.block, v.m);
  }

  // ----- One command in step -----

  /** The source skips its comments and executes one more character. */
  lemma SkipAndStep(j: Job, s: Src.State) returns (k: nat)
    requires s.Running? && s.pc <= |j.t|
    ensures k >= 1
    ensures j.SrcRun(s, k) == Src.Step(j.t, j.Ref(), s.(pc := Skip(j.t, s.pc)))
  {
    var a := Skip(j.t, s.pc);
    RunComments(j.t, j.Ref(), s, a);
    j.SrcThen(s, a - s.pc, 1);
    assert j.SrcRun(s.(pc := a), 1) == j.SrcRun(Src.Step(j.t, j.Ref(), s.(pc := a)), 0);
    k := a - s.pc + 1;
  }

  ghost predicate After(j: Job, s: Src.State, u: Ir.State, k: nat, m: nat) {
    k >= 1 && m >= 1 && (j.InStep(j.SrcRun(s, k), j.IrRun(u, m)) || j.BothStopped(j.SrcRun(s, k), j.IrRun(u, m)))
  }

  lemma AdvanceRead(j: Job, s: Src.State, u: Ir.State) returns (k: nat, m: nat)
    requires j.InStep(s, u) && SyncedAt(j.t, j.c, j.f, j.S, s.pc)
    requires Skip(j.t, s.pc) < |j.t| && j.t[Skip(j.t, s.pc)] == ','
    ensures After(j, s, u, k, m)
  {
    k := SkipAndStep(j, s);
    m := RunRead(j, u, j.S[s.pc].head, s.head, s.w);
  }

  lemma AdvanceWrite(j: Job, s: Src.State, u: Ir.State) returns (k: nat, m: nat)
    requires j.InStep(s, u) && SyncedAt(j.t, j.c, j.f, j.S, s.pc)
    requires Skip(j.t, s.pc) < |j.t| && j.t[Skip(j.t, s.pc)] == '.'
    ensures After(j, s, u, k, m)
  {
    k := SkipAndStep(j, s);
    m := RunWrite(j, u, j.S[s.pc].head, s.head, s.w);
  }

  lemma SourceChanges(j: Job, s: Src.State) returns (k: nat)
    requires s.Running? && s.pc <= |j.t|
    requires Skip(j.t, s.pc) < |j.t| && IsChange(j.t[Skip(j.t, s.pc)])
    ensures var a := Skip(j.t, s.pc); var e := RunEnd(j.t, a, false);
            k >= 1 &&
            j.SrcRun(s, k) ==
            Src.Running(e, s.head, s.w.(tape := s.w.tape[s.head := (s.w.Cell(s.head) + Net(j.t, a, e)) % 256]))
  {
    var a := Skip(j.t, s.pc);
    var e := RunEnd(j.t, a, false);
    assert a < e;
    RunComments(j.t, j.Ref(), s, a);
    RunChanges(j.t, j.Ref(), s.(pc := a), e);
    j.SrcThen(s, a - s.pc, e - a);
    k := e - s.pc;
  }

  lemma AdvanceChange(j: Job, s: Src.State, u: Ir.State) returns (k: nat, m: nat)
    requires j.InStep(s, u) && SyncedAt(j.t, j.c, j.f, j.S, s.pc)
    requires Skip(j.t, s.pc) < |j.t| && IsChange(j.t[Skip(j.t, s.pc)])
    ensures After(j, s, u, k, m)
  {
    var a := Skip(j.t, s.pc);
    k := SourceChanges(j, s);
    m := RunChange(j, u, j.S[s.pc].head, s.head, s.w, Net(j.t, a, RunEnd(j.t, a, false)));
  }

  lemma SourceMoves(j: Job, s: Src.State) returns (k: nat)
    requires s.Running? && s.pc <= |j.t|
    requires Skip(j.t, s.pc) < |j.t| && IsMove(j.t[Skip(j.t, s.pc)])
    ensures k >= 1 && j.SrcRun(s, k) == AfterMoves(j.t, j.Ref(), s.(pc := Skip(j.t, s.pc)))
  {
    var a := Skip(j.t, s.pc);
    RunComments(j.t, j.Ref(), s, a);
    var n := RunMoves(j.t, j.Ref(), s.(pc := a));
    j.SrcThen(s, a - s.pc, n);
    k := a - s.pc + n;
  }

  lemma AdvanceMove(j: Job, s: Src.State, u: Ir.State) returns (k: nat, m: nat)
    requires j.Starts(s, u) && SyncedAt(j.t, j.c, j.f, j.S, s.pc) && Footer(j.c, j.f) && (j.safe ==> j.c.checked)
    requires Skip(j.t, s.pc) < |j.t| && IsMove(j.t[Skip(j.t, s.pc)])
    ensures After(j, s, u, k, m)
  {
    var a := Skip(j.t, s.pc);
    var e := RunEnd(j.t, a, true);
    k := SourceMoves(j, s);
    m := MoveCodeRuns(j, u, j.S[s.pc], s.head, s.w, Net(j.t, a, e), j.S[e]);
  }

  lemma MoveCodeRuns(j: Job, u: Ir.State, p: Point, head: int, w: World, n: int, q: Point) returns (m: nat)
    requires Footer(j.c, j.f) && (j.safe ==> j.c.checked)
    requires u.At? && u.block == p.block && u.index == p.index && p.block < |j.f| && GuardedMove(j.f, j.c, p, n, q)
    requires j.Carries(u.m, head, w, p.head)
    ensures m >= 1
    ensures var v := j.IrRun(u, m);
            if j.c.checked && !j.OnTape(head + n)
            then v.Halted? && v.m.w == w.(events := w.events + [Message]) && j.Safe(v.m)
            else v.At? && v.block == q.block && v.index == q.index && j.Holds(v.m, head + n, w, q.head)
  {
    if j.c.checked {
      m := RunGuarded(j, u, p.head, head, w, n, q);
    } else {
      RunPlainMove(j, u, p.head, head, w, n);
      m := 1;
    }
  }

  lemma AdvanceOpen(j: Job, s: Src.State, u: Ir.State) returns (k: nat, m: nat)
    requires j.InStep(s, u) && SyncedAt(j.t, j.c, j.f, j.S, s.pc)
    requires Skip(j.t, s.pc) < |j.t| && j.t[Skip(j.t, s.pc)] == '['
    ensures After(j, s, u, k, m)
  {
    var a := Skip(j.t, s.pc);
    k := SkipAndStep(j, s);
    m := RunTest(j, u, j.S[s.pc].head, s.head, s.w, j.S[a + 1], j.S[Close(j.t, a + 1, 0) + 1]);
  }

  /** At a closing bracket the source goes back to its partner and tests there. */
  lemma SourceCloses(j: Job, s: Src.State) returns (k: nat)
    requires s.Running? && s.pc <= |j.t|
    requires var a := Skip(j.t, s.pc);
             && a < |j.t| && j.t[a] == ']'
             && var o := Open(j.t, a, 0); o < a && j.t[o] == '[' && Close(j.t, o + 1, 0) == a
    ensures k >= 1
    ensures var a := Skip(j.t, s.pc);
            j.SrcRun(s, k) == s.(pc := if s.w.Cell(s.head) == 0 then a + 1 else Open(j.t, a, 0) + 1)
  {
    var k0 := SkipAndStep(j, s);
    var k1 := SkipAndStep(j, s.(pc := Open(j.t, Skip(j.t, s.pc), 0)));
    j.SrcThen(s, k0, k1);
    k := k0 + k1;
  }

  lemma AdvanceClose(j: Job, s: Src.State, u: Ir.State) returns (k: nat, m: nat)
    requires j.InStep(s, u) && SyncedAt(j.t, j.c, j.f, j.S, s.pc)
    requires Skip(j.t, s.pc) < |j.t| && j.t[Skip(j.t, s.pc)] == ']'
    ensures After(j, s, u, k, m)
  {
    var a := Skip(j.t, s.pc);
    k := SourceCloses(j, s);
    m := RunTest(j, u, j.S[s.pc].head, s.head, s.w, j.S[Open(j.t, a, 0) + 1], j.S[a + 1]);
  }

  lemma RunToEnd(j: Job, u: Ir.State) returns (m: nat)
    requires Footer(j.c, j.f) && u.At? && EndsHere(j.f, Point(u.block, u.index, 0), j.c.endbb) && ARR in u.m.regs
    ensures m >= 1 && j.IrRun(u, m) == Halted(Freed(u.m))
  {
    Step1Term(j.f, j.Mach(), u);
    GotoPlain(j.f, u.block, j.c.endbb, u.m);
    RunFooter(j, u.m);
    j.IrThen(u, 1, 2);
    m := 3;
  }

  lemma AdvanceEnd(j: Job, s: Src.State, u: Ir.State) returns (k: nat, m: nat)
    requires j.Starts(s, u) && SyncedAt(j.t, j.c, j.f, j.S, s.pc) && Footer(j.c, j.f)
    requires Skip(j.t, s.pc) == |j.t|
    ensures After(j, s, u, k, m)
  {
    k := SkipAndStep(j, s);
    m := RunToEnd(j, u);
  }

  /** Wherever the two machines are in step, both go on at least one step and are in step again, or both stop. */
  lemma Advance(j: Job, s: Src.State, u: Ir.State) returns (k: nat, m: nat)
    requires j.Compiled() && j.Starts(s, u)
    ensures After(j, s, u, k, m)
  {
    assert SyncedAt(j.t, j.c, j.f, j.S, s.pc);
    var a := Skip(j.t, s.pc);
    if a == |j.t| {
      k, m := AdvanceEnd(j, s, u);
    } else if IsChange(j.t[a]) {
      k, m := AdvanceChange(j, s, u);
    } else if IsMove(j.t[a]) {
      k, m := AdvanceMove(j, s, u);
    } else if j.t[a] == '[' {
      k, m := AdvanceOpen(j, s, u);
    } else if j.t[a] == ']' {
      k, m := AdvanceClose(j, s, u);
    } else if j.t[a] == ',' {
      k, m := AdvanceRead(j, s, u);
    } else {
      k, m := AdvanceWrite(j, s, u);
    }
  }

  /** A first command that is not a move makes the code look at the tape, wherever the head is. */
  lemma FirstAccess(j: Job, s: Src.State, u: Ir.State) returns (m: nat)
    requires j.Compiled() && j.InStep(s, u) && s.pc <= |j.t| && !MovesFirst(j.t, s.pc)
    ensures j.IrRun(u, m).At? && (!j.OnTape(s.head) ==> j.IrRun(u, m).m.stray)
  {
    assert SyncedAt(j.t, j.c, j.f, j.S, s.pc);
    var a, h := Skip(j.t, s.pc), j.S[s.pc].head;
    if IsChange(j.t[a]) {
      m := RunChange(j, u, h, s.head, s.w, Net(j.t, a, RunEnd(j.t, a, false)));
    } else if j.t[a] == '[' {
      var test := RunIntoTest(j, u, h, s.head, s.w, j.S[a + 1], j.S[Close(j.t, a + 1, 0) + 1]);
      m := 3;
    } else if j.t[a] == ']' {
      var test := RunIntoTest(j, u, h, s.head, s.w, j.S[Open(j.t, a, 0) + 1], j.S[a + 1]);
      m := 3;
    } else if j.t[a] == ',' {
      m := RunRead(j, u, h, s.head, s.w);
    } else {
      m := RunWrite(j, u, h, s.head, s.w);
    }
  }

  // ----- Whole runs -----

  lemma InStepStarts(j: Job, s: Src.State, u: Ir.State)
    requires j.Compiled() && j.InStep(s, u)
    ensures j.Starts(s, u)
  {
    assert SyncedAt(j.t, j.c, j.f, j.S, s.pc);
  }

  /** In step, or stopped, after k source steps and m machine steps. */
  ghost predicate Meets(j: Job, s: Src.State, u: Ir.State, k: nat, m: nat, n: nat) {
    || j.BothStopped(j.SrcRun(s, k), j.IrRun(u, m))
    || (k >= n && m >= n && j.InStep(j.SrcRun(s, k), j.IrRun(u, m)))
  }

  lemma MeetOnce(j: Job, s: Src.State, u: Ir.State, k0: nat, m0: nat, n: nat) returns (k: nat, m: nat)
    requires j.Compiled() && Meets(j, s, u, k0, m0, n)
    ensures Meets(j, s, u, k, m, n + 1)
  {
    var s', u' := j.SrcRun(s, k0), j.IrRun(u, m0);
    if j.BothStopped(s', u') {
      k, m := k0, m0;
    } else {
      InStepStarts(j, s', u');
      var k1, m1 := Advance(j, s', u');
      k, m := k0 + k1, m0 + m1;
      LaterMeeting(j, s, u, k0, m0, k1, m1, n);
    }
  }

  lemma LaterMeeting(j: Job, s: Src.State, u: Ir.State, k0: nat, m0: nat, k1: nat, m1: nat, n: nat)
    requires k0 >= n && m0 >= n && After(j, j.SrcRun(s, k0), j.IrRun(u, m0), k1, m1)
    ensures Meets(j, s, u, k0 + k1, m0 + m1, n + 1)
  {
    j.SrcThen(s, k0, k1);
    j.IrThen(u, m0, m1);
  }

  /** For every n the machines can be brought in step at or beyond n steps of each, or both have stopped. */
  lemma {:induction false} InStepBeyond(j: Job, s: Src.State, u: Ir.State, n: nat) returns (k: nat, m: nat)
    requires j.Compiled() && j.Starts(s, u)
    ensures Meets(j, s, u, k, m, n)
    decreases n
  {
    if n == 0 {
      k, m := Advance(j, s, u);
    } else {
      k, m := InStepBeyond(j, s, u, n - 1);
      k, m := MeetOnce(j, s, u, k, m, n - 1);
    }
  }

  // ----- Same behaviour -----

  lemma {:induction false} SrcStopsForGood(j: Job, s: Src.State, n: nat, k: nat)
    requires n <= k && !j.SrcRun(s, n).Running?
    ensures j.SrcRun(s, k) == j.SrcRun(s, n)
  {
    j.SrcThen(s, n, k - n);
    Src.HaltedStays(j.t, j.Ref(), j.SrcRun(s, n), k - n);
  }

  lemma IrStopsForGood(j: Job, u: Ir.State, n: nat, m: nat)
    requires n <= m && !j.IrRun(u, n).At?
    ensures j.IrRun(u, m) == j.IrRun(u, n)
  {
    j.IrThen(u, n, m - n);
    Ir.HaltedStays(j.f, j.Mach(), j.IrRun(u, n), m - n);
  }

  /** Two runs that have both stopped somewhere have stopped wherever either of them is seen stopped. */
  lemma StopsAgree(j: Job, s: Src.State, u: Ir.State, k: nat, m: nat, k': nat, m': nat)
    requires j.BothStopped(j.SrcRun(s, k), j.IrRun(u, m))
    ensures !j.SrcRun(s, k').Running? ==> j.SrcRun(s, k') == j.SrcRun(s, k)
    ensures !j.IrRun(u, m').At? ==> j.IrRun(u, m') == j.IrRun(u, m)
  {
    if !j.SrcRun(s, k').Running? {
      if k <= k' { SrcStopsForGood(j, s, k, k'); } else { SrcStopsForGood(j, s, k', k); }
    }
    if !j.IrRun(u, m').At? {
      if m <= m' { IrStopsForGood(j, u, m, m'); } else { IrStopsForGood(j, u, m', m); }
    }
  }

  /** When the interpreter stops, the code stops with the same effects. */
  lemma CodeStopsToo(j: Job, s: Src.State, u: Ir.State, n: nat) returns (m: nat)
    requires j.Compiled() && j.Starts(s, u)
    requires !j.SrcRun(s, n).Running?
    ensures j.BothStopped(j.SrcRun(s, n), j.IrRun(u, m))
  {
    var k;
    k, m := InStepBeyond(j, s, u, n);
    if k >= n { SrcStopsForGood(j, s, n, k); }
    assert j.BothStopped(j.SrcRun(s, k), j.IrRun(u, m));
    StopsAgree(j, s, u, k, m, n, m);
  }

  /** When the code stops, for whatever reason, the interpreter stops with the same effects; so the code never
      reads an undefined register and never runs off a block. */
  lemma InterpreterStopsToo(j: Job, s: Src.State, u: Ir.State, n: nat) returns (k: nat)
    requires j.Compiled() && j.Starts(s, u)
    requires !j.IrRun(u, n).At?
    ensures j.BothStopped(j.SrcRun(s, k), j.IrRun(u, n))
  {
    var m;
    k, m := InStepBeyond(j, s, u, n);
    if m >= n { IrStopsForGood(j, u, n, m); }
    assert j.BothStopped(j.SrcRun(s, k), j.IrRun(u, m));
    StopsAgree(j, s, u, k, m, k, n);
  }

  // ----- Runs that need not stop: what has happened so far -----

  lemma {:induction false} SrcEventsGrow(j: Job, s: Src.State, n: nat)
    ensures s.w.events <= j.SrcRun(s, n).w.events
    decreases n
  {
    if n > 0 {
      SrcEventsGrow(j, Src.Step(j.t, j.Ref(), s), n - 1);
    }
  }

  ghost predicate MemGrows(u: Ir.State, v: Ir.State) {
    v.Stuck? || (!u.Stuck? && u.m.w.events <= v.m.w.events && (u.m.stray ==> v.m.stray))
  }

  lemma StepMemGrows(j: Job, u: Ir.State)
    ensures MemGrows(u, Ir.Step(j.f, j.Mach(), u))
  {
  }

  lemma {:induction false} IrMemGrows(j: Job, u: Ir.State, n: nat)
    ensures MemGrows(u, j.IrRun(u, n))
    decreases n
  {
    if n > 0 {
      StepMemGrows(j, u);
      IrMemGrows(j, Ir.Step(j.f, j.Mach(), u), n - 1);
    }
  }

  lemma NeverStuck(j: Job, s: Src.State, u: Ir.State, n: nat)
    requires j.Compiled() && j.Starts(s, u)
    ensures !j.IrRun(u, n).Stuck?
  {
    if j.IrRun(u, n).Stuck? { var k := InterpreterStopsToo(j, s, u, n); }
  }

  /** At every moment of every run, finished or not, what the interpreter has read and written is a prefix of
      what the code reads and writes. */
  lemma CodeCatchesUp(j: Job, s: Src.State, u: Ir.State, n: nat) returns (m: nat)
    requires j.Compiled() && j.Starts(s, u)
    ensures !j.IrRun(u, m).Stuck? && j.SrcRun(s, n).w.events <= j.IrRun(u, m).m.w.events
  {
    if !j.SrcRun(s, n).Running? {
      m := CodeStopsToo(j, s, u, n);
    } else {
      var k;
      k, m := InStepBeyond(j, s, u, n);
      NeverStuck(j, s, u, m);
      if k < n { SrcStopsForGood(j, s, k, n); }
      j.SrcThen(s, n, k - n);
      SrcEventsGrow(j, j.SrcRun(s, n), k - n);
    }
  }

  /** And the other way round; moreover, if that is followed, every load and store so far was on the tape. */
  lemma InterpreterCatchesUp(j: Job, s: Src.State, u: Ir.State, n: nat) returns (k: nat)
    requires j.Compiled() && j.Starts(s, u)
    ensures !j.IrRun(u, n).Stuck? && j.IrRun(u, n).m.w.events <= j.SrcRun(s, k).w.events
    ensures j.Safe(j.IrRun(u, n).m)
  {
    NeverStuck(j, s, u, n);
    if !j.IrRun(u, n).At? {
      k := InterpreterStopsToo(j, s, u, n);
    } else {
      var m;
      k, m := InStepBeyond(j, s, u, n);
      if m < n { IrStopsForGood(j, u, m, n); }
      j.IrThen(u, n, m - n);
      IrMemGrows(j, j.IrRun(u, n), m - n);
      SafePrefix(j, j.IrRun(u, n).m, j.IrRun(u, m).m);
    }
  }

  lemma SafePrefix(j: Job, a: Mem, b: Mem)
    requires (a.stray ==> b.stray) && j.Safe(b)
    ensures j.Safe(a)
  {
  }
}
