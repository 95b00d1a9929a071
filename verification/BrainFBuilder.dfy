/** What each group of builder calls does to the function under construction, as values, and what it keeps. */
module BrainFBuilder {
  import opened Options
  import opened BrainFSource
  import opened BrainFIR
  import opened BrainFSync
  import opened BrainFWellFormed

  /** The function so far with its bookkeeping, the next free register, the insertion block, and the register
      that holds the head there. */
  datatype Code = Code(f: Func, avail: seq<set<Reg>>, defs: map<Reg, Site>, next: Reg, cur: nat, head: Reg)

  function TapeRegs(c: Target): set<Reg> { if c.checked then {ARR, ARRMAX} else {ARR} }

  function CurOut(s: Code): set<Reg>
    requires s.cur < |s.f| == |s.avail|
  {
    OutRegs(s.f[s.cur], s.avail[s.cur])
  }

  ghost predicate Good(c: Target, s: Code) {
    && WF(s.f, s.avail, s.defs, s.next)
    && s.cur < |s.f| && s.f[s.cur].term.None?
    && TapeRegs(c) + {s.head} <= CurOut(s) && ARRMAX < s.head < s.next
    && Footer(c, s.f) && s.avail[c.endbb] <= {ARR} && (c.checked ==> s.avail[c.aberrorbb] <= {ARR})
  }

  /** What every group of calls keeps: old code stays, only the insertion block is touched, the bookkeeping grows. */
  ghost predicate Extends(s: Code, s': Code) {
    && Grows(s.f, s'.f) && s.avail <= s'.avail && s.next <= s'.next
    && forall b {:trigger s'.f[b]} :: 0 <= b < |s.f| && b != s.cur ==> s'.f[b] == s.f[b]
  }

  // ----- Straight-line code -----

  function PutAt(s: Code, b: nat, i: Instr): Code
    requires b < |s.f|
  {
    s.(f := Append(s.f, b, i), defs := s.defs[s.next := InstrSite(b, |s.f[b].instrs|)], next := s.next + 1)
  }

  function Put(s: Code, i: Instr): Code
    requires s.cur < |s.f|
  {
    PutAt(s, s.cur, i)
  }

  lemma AppendGrows(f: Func, b: nat, i: Instr)
    requires b < |f| && f[b].term.None?
    ensures Grows(f, Append(f, b, i))
  {
    forall x | 0 <= x < |f| ensures BlockGrows(f[x], Append(f, b, i)[x]) {
    }
  }

  lemma PutGood(c: Target, s: Code, i: Instr)
    requires Good(c, s) && i.Uses() <= CurOut(s) && i.Dsts() <= {s.next}
    ensures var s' := Put(s, i);
            && Good(c, s') && Extends(s, s') && CurOut(s') == CurOut(s) + i.Dsts()
            && s'.f[s'.cur].instrs == s.f[s.cur].instrs + [i]
  {
    AppendWF(s.f, s.avail, s.defs, s.next, s.cur, i);
    AppendGrows(s.f, s.cur, i);
  }

  lemma ExtendsTrans(a: Code, b: Code, c: Code)
    requires Extends(a, b) && Extends(b, c) && b.cur == a.cur
    ensures Extends(a, c)
  {
    GrowsTrans(a.f, b.f, c.f);
  }

  function Put3(s: Code, i: Instr, k: Instr, l: Instr): Code
    requires s.cur < |s.f|
  {
    Put(Put(Put(s, i), k), l)
  }

  /** Three instructions in a row: the second and third may use what the ones before them define. */
  lemma Put3Good(c: Target, s: Code, i: Instr, k: Instr, l: Instr)
    requires Good(c, s)
    requires i.Uses() <= CurOut(s) && i.Dsts() <= {s.next}
    requires k.Uses() <= CurOut(s) + i.Dsts() && k.Dsts() <= {s.next + 1}
    requires l.Uses() <= CurOut(s) + i.Dsts() + k.Dsts() && l.Dsts() <= {s.next + 2}
    ensures var s' := Put3(s, i, k, l);
            && Good(c, s') && Extends(s, s') && CurOut(s') == CurOut(s) + i.Dsts() + k.Dsts() + l.Dsts()
            && s'.f[s'.cur].instrs == s.f[s.cur].instrs + [i, k, l]
  {
    var s1 := Put(s, i);
    var s2 := Put(s1, k);
    PutGood(c, s, i);
    PutGood(c, s1, k);
    PutGood(c, s2, l);
    ExtendsTrans(s, s1, s2);
    ExtendsTrans(s, s2, Put(s2, l));
  }

  lemma Put3Shape(s: Code, i: Instr, k: Instr, l: Instr)
    requires s.cur < |s.f|
    ensures var s' := Put3(s, i, k, l);
            s'.cur == s.cur && s'.head == s.head && s'.next == s.next + 3 && |s'.f| == |s.f|
  {
  }

  function EmitRead(s: Code): Code
    requires s.cur < |s.f|
  {
    Put3(s, Getchar(s.next), Trunc8(s.next + 1, s.next), Store(s.next + 1, s.head))
  }

  function EmitWrite(s: Code): Code
    requires s.cur < |s.f|
  {
    Put3(s, Load(s.next, s.head), SExt32(s.next + 1, s.next), Putchar(s.next + 1))
  }

  function EmitChange(s: Code, n: int): Code
    requires s.cur < |s.f|
  {
    Put3(s, Load(s.next, s.head), AddConst8(s.next + 1, s.next, n), Store(s.next + 1, s.head))
  }

  ghost predicate Emitted3(c: Target, s: Code, s': Code) {
    && Good(c, s') && Extends(s, s') && s'.cur == s.cur && s'.head == s.head && |s'.f| == |s.f|
    && s.cur < |s.f| && |s'.f[s.cur].instrs| == |s.f[s.cur].instrs| + 3
  }

  lemma EmitReadGood(c: Target, s: Code)
    requires Good(c, s)
    ensures var s' := EmitRead(s);
            Emitted3(c, s, s') && ReadCode(s'.f[s.cur].instrs, |s.f[s.cur].instrs|, s.head)
  {
    hide WF, Footer;
    Put3Good(c, s, Getchar(s.next), Trunc8(s.next + 1, s.next), Store(s.next + 1, s.head));
  }

  lemma EmitWriteGood(c: Target, s: Code)
    requires Good(c, s)
    ensures var s' := EmitWrite(s);
            Emitted3(c, s, s') && WriteCode(s'.f[s.cur].instrs, |s.f[s.cur].instrs|, s.head)
  {
    hide WF, Footer;
    Put3Good(c, s, Load(s.next, s.head), SExt32(s.next + 1, s.next), Putchar(s.next + 1));
  }

  lemma EmitChangeGood(c: Target, s: Code, n: int)
    requires Good(c, s)
    ensures var s' := EmitChange(s, n);
            Emitted3(c, s, s') && ChangeCode(s'.f[s.cur].instrs, |s.f[s.cur].instrs|, s.head, n)
  {
    hide WF, Footer;
    Put3Good(c, s, Load(s.next, s.head), AddConst8(s.next + 1, s.next, n), Store(s.next + 1, s.head));
  }

  // ----- Blocks -----

  function NewBlock(s: Code, av: set<Reg>): Code { s.(f := s.f + [EMPTY_BLOCK], avail := s.avail + [av]) }

  function CloseCur(s: Code, t: Term): Code
    requires s.cur < |s.f|
  {
    s.(f := Terminate(s.f, s.cur, t))
  }

  lemma NewBlockGrows(f: Func)
    ensures Grows(f, f + [EMPTY_BLOCK])
  {
  }

  lemma TerminateGrows(f: Func, b: nat, t: Term)
    requires b < |f| && f[b].term.None?
    ensures Grows(f, Terminate(f, b, t))
  {
    forall x | 0 <= x < |f| ensures BlockGrows(f[x], Terminate(f, b, t)[x]) {
    }
  }

  // ----- Moves -----

  function EmitGep(s: Code, n: int): Code
    requires s.cur < |s.f|
  {
    Put(s, Gep(s.next, s.head, n)).(head := s.next)
  }

  lemma EmitGepGood(c: Target, s: Code, n: int)
    requires Good(c, s)
    ensures var s' := EmitGep(s, n);
            && Good(c, s') && Extends(s, s') && |s'.f| == |s.f|
            && |s'.f[s.cur].instrs| == |s.f[s.cur].instrs| + 1
            && MoveCode(s'.f[s.cur].instrs, |s.f[s.cur].instrs|, s.head, n)
            && s'.f[s.cur].instrs[|s.f[s.cur].instrs|].dst == s'.head
  {
    PutGood(c, s, Gep(s.next, s.head, n));
  }

  function EmitTests(s: Code): Code
    requires s.cur < |s.f|
  {
    Put3(s, IcmpUge(s.next, s.head, ARRMAX), IcmpUlt(s.next + 1, s.head, ARR), Or1(s.next + 2, s.next, s.next + 1))
  }

  /** Branch to the abort block when the test is true, otherwise to a fresh block, where code goes on. */
  function EmitGuard(c: Target, s: Code): Code
    requires s.cur < |s.f| && s.next > 0
  {
    var s1 := NewBlock(s, TapeRegs(c) + {s.head});
    CloseCur(s1, CondBr(s.next - 1, c.aberrorbb, |s.f|)).(cur := |s.f|)
  }

  lemma TestsInCode(a: seq<Instr>, n: Reg, h: Reg)
    requires ARRMAX < h < n
    ensures var b := a + [IcmpUge(n, h, ARRMAX), IcmpUlt(n + 1, h, ARR), Or1(n + 2, n, n + 1)];
            b[..|a|] == a && b[|a| + 2] == Or1(n + 2, n, n + 1) && CheckCode(b, |a|, h)
  {
  }

  lemma EmitTestsGood(c: Target, s: Code)
    requires Good(c, s) && c.checked
    ensures var s' := EmitTests(s);
            Emitted3(c, s, s') && s'.next - 1 in CurOut(s') && |s'.f[s.cur].instrs| >= 3
            && s'.f[s.cur].instrs[..|s.f[s.cur].instrs|] == s.f[s.cur].instrs
            && s'.f[s.cur].instrs[|s.f[s.cur].instrs| + 2].Or1?
            && s'.f[s.cur].instrs[|s.f[s.cur].instrs| + 2].dst == s'.next - 1
            && CheckCode(s'.f[s.cur].instrs, |s.f[s.cur].instrs|, s.head)
  {
    hide WF, Footer, Extends, CheckCode, Put3;
    TestsInCode(s.f[s.cur].instrs, s.next, s.head);
    Put3Shape(s, IcmpUge(s.next, s.head, ARRMAX), IcmpUlt(s.next + 1, s.head, ARR), Or1(s.next + 2, s.next, s.next + 1));
    Put3Good(c, s, IcmpUge(s.next, s.head, ARRMAX), IcmpUlt(s.next + 1, s.head, ARR), Or1(s.next + 2, s.next, s.next + 1));
  }

  lemma EmitGuardGood(c: Target, s: Code)
    requires Good(c, s) && c.checked && s.next - 1 in CurOut(s)
    ensures var s' := EmitGuard(c, s);
            && Good(c, s') && Extends(s, s') && s'.f[s'.cur] == EMPTY_BLOCK && s'.head == s.head && s'.cur == |s.f|
            && |s'.f| == |s.f| + 1
            && s'.f[s.cur] == s.f[s.cur].(term := Some(CondBr(s.next - 1, c.aberrorbb, s'.cur)))
  {
    var s1 := NewBlock(s, TapeRegs(c) + {s.head});
    NewBlockWF(s.f, s.avail, s.defs, s.next, TapeRegs(c) + {s.head});
    NewBlockGrows(s.f);
    TerminateWF(s1.f, s1.avail, s1.defs, s1.next, s1.cur, CondBr(s.next - 1, c.aberrorbb, |s.f|));
    TerminateGrows(s1.f, s1.cur, CondBr(s.next - 1, c.aberrorbb, |s.f|));
    GrowsTrans(s.f, s1.f, EmitGuard(c, s).f);
  }

  function EmitMove(c: Target, s: Code, n: int): Code
    requires s.cur < |s.f|
  {
    var s1 := EmitGep(s, n);
    if c.checked then EmitGuard(c, EmitTests(s1)) else s1
  }

  lemma EmitMoveGood(c: Target, s: Code, n: int)
    requires Good(c, s)
    ensures var s' := EmitMove(c, s, n);
            && Good(c, s') && Extends(s, s') && (s'.cur == s.cur || s'.cur == |s.f|) && |s.f| <= |s'.f|
            && |s'.f| == (if s'.cur == s.cur then |s.f| else |s.f| + 1)
            && (s'.cur != s.cur ==> s'.f[s.cur].term.Some?)
            && GuardedMove(s'.f, c, Point(s.cur, |s.f[s.cur].instrs|, s.head), n,
                           Point(s'.cur, |s'.f[s'.cur].instrs|, s'.head))
  {
    hide WF, Footer;
    var s1 := EmitGep(s, n);
    EmitGepGood(c, s, n);
    if c.checked {
      var s2 := EmitTests(s1);
      EmitTestsGood(c, s1);
      EmitGuardGood(c, s2);
      ExtendsTrans(s, s1, s2);
      ExtendsTrans(s, s2, EmitGuard(c, s2));
      assert s2.f[s.cur].instrs[|s.f[s.cur].instrs|] == s1.f[s.cur].instrs[|s.f[s.cur].instrs|];
    }
  }

  // ----- Loops -----

  /** An open loop: its test block has the half-finished phi and nothing else; its body starts in block body. */
  ghost predicate OpenLoop(c: Target, s: Code, test: nat, body: nat) {
    && test < |s.f| == |s.avail| && s.f[test].term.None? && s.f[test].instrs == [] && |s.f[test].phis| == 1
    && |s.f[test].phis[0].incoming| == 1 && ARRMAX < s.f[test].phis[0].dst < s.next
    && s.avail[test] == TapeRegs(c)
    && body < |s.f| && s.f[body].phis == [] && s.avail[body] == TapeRegs(c) + {s.f[test].phis[0].dst}
    && test != s.cur && test != body
  }

  /** The branch into a fresh test block. */
  function EnterTest(c: Target, s: Code): Code
    requires s.cur < |s.f|
  {
    CloseCur(NewBlock(s, TapeRegs(c)), Br(|s.f|))
  }

  /** The body's block, and the first half of the test block's phi. */
  function StartBody(c: Target, s: Code, test: nat): Code
    requires s.cur < |s.f| && test < |s.f|
  {
    var s1 := NewBlock(s, TapeRegs(c) + {s.next});
    s1.(f := AddPhi(s1.f, test, Phi(s.next, [Incoming(s.head, s.cur)])), defs := s.defs[s.next := PhiSite(test, 0)],
        next := s.next + 1, cur := |s.f|, head := s.next)
  }

  function BeginLoop(c: Target, s: Code): Code
    requires s.cur < |s.f|
  {
    StartBody(c, EnterTest(c, s), |s.f|)
  }

  lemma EnterTestGood(c: Target, s: Code)
    requires Good(c, s)
    ensures var s' := EnterTest(c, s);
            && WF(s'.f, s'.avail, s'.defs, s'.next) && Extends(s, s') && |s'.f| == |s.f| + 1
            && s'.f[|s.f|] == EMPTY_BLOCK && s'.f[s.cur] == s.f[s.cur].(term := Some(Br(|s.f|)))
            && s'.avail[|s.f|] == TapeRegs(c) && CurOut(s') == CurOut(s)
            && Footer(c, s'.f)
            && forall q :: 0 <= q < |s'.f| ==> (HasTarget(s'.f[q], |s.f|) <==> q == s.cur)
  {
    var t := |s.f|;
    var s1 := NewBlock(s, TapeRegs(c));
    var s' := EnterTest(c, s);
    NewBlockWF(s.f, s.avail, s.defs, s.next, TapeRegs(c));
    NewBlockGrows(s.f);
    TerminateWF(s1.f, s1.avail, s1.defs, s1.next, s1.cur, Br(t));
    TerminateGrows(s1.f, s1.cur, Br(t));
    GrowsTrans(s.f, s1.f, s'.f);
    forall q | 0 <= q < |s'.f| ensures HasTarget(s'.f[q], t) <==> q == s.cur {
      if q < t { assert TermOK(s.f, s.avail, q); }
    }
  }

  lemma StartBodyGood(c: Target, s: Code, test: nat)
    requires WF(s.f, s.avail, s.defs, s.next) && Footer(c, s.f)
    requires s.cur < |s.f| && test < |s.f| && s.cur != test && s.f[test] == EMPTY_BLOCK && s.avail[test] == TapeRegs(c)
    requires s.head in CurOut(s) && ARRMAX < s.head < s.next
    requires s.avail[c.endbb] <= {ARR} && (c.checked ==> s.avail[c.aberrorbb] <= {ARR})
    requires forall q :: 0 <= q < |s.f| ==> (HasTarget(s.f[q], test) <==> q == s.cur)
    ensures var s' := StartBody(c, s, test);
            Good(c, s') && OpenLoop(c, s', test, s'.cur) && s'.cur == |s.f|
  {
    var s1 := NewBlock(s, TapeRegs(c) + {s.next});
    NewBlockWF(s.f, s.avail, s.defs, s.next, TapeRegs(c) + {s.next});
    forall q | 0 <= q < |s1.f| ensures HasTarget(s1.f[q], test) <==> q == s.cur {
    }
    AddPhiWF(s1.f, s1.avail, s1.defs, s1.next, test, s.cur, s.head);
  }

  /** All old blocks stay as they were; the block just left ends with the branch to the new test block, whose phi
      receives the head from it. */
  lemma BeginLoopGood(c: Target, s: Code)
    requires Good(c, s)
    ensures var s' := BeginLoop(c, s);
            && Good(c, s') && OpenLoop(c, s', |s.f|, s'.cur) && Extends(s, s') && s'.cur == |s.f| + 1 == |s'.f| - 1
            && s'.f[s'.cur] == EMPTY_BLOCK
            && s'.f[s.cur] == s.f[s.cur].(term := Some(Br(|s.f|)))
            && s'.f[|s.f|].phis[0] == Phi(s'.head, [Incoming(s.head, s.cur)])
  {
    var s1 := EnterTest(c, s);
    EnterTestGood(c, s);
    StartBodyGood(c, s1, |s.f|);
    var s' := BeginLoop(c, s);
    forall b | 0 <= b < |s.f| ensures BlockGrows(s.f[b], s'.f[b]) {
      assert BlockGrows(s.f[b], s1.f[b]);
    }
  }

  /** The back edge: the second half of the phi. */
  function CloseBody(s: Code, test: nat): Code
    requires s.cur < |s.f| && test < |s.f| && test != s.cur && |s.f[test].phis| == 1
  {
    s.(f := AddIncoming(Terminate(s.f, s.cur, Br(test)), test, Incoming(s.head, s.cur)))
  }

  lemma CloseBodyGood(c: Target, s: Code, test: nat, body: nat)
    requires Good(c, s) && OpenLoop(c, s, test, body)
    ensures var s' := CloseBody(s, test);
            var phi := s.f[test].phis[0];
            && WF(s'.f, s'.avail, s'.defs, s'.next) && |s'.f| == |s.f|
            && s'.f[s.cur] == s.f[s.cur].(term := Some(Br(test)))
            && s'.f[test] == s.f[test].(phis := [Phi(phi.dst, phi.incoming + [Incoming(s.head, s.cur)])])
            && (forall b :: 0 <= b < |s.f| && b != s.cur && b != test ==> s'.f[b] == s.f[b])
            && phi.incoming[0].from != s.cur
  {
    BackEdgeWF(s.f, s.avail, s.defs, s.next, test, s.cur, s.head);
    assert PhisOK(s.f, s.avail, test);
    var phi := s.f[test].phis[0];
    assert PhiPreds(s.f, test, phi);
    assert !Froms(phi, s.cur);
  }

  /** The two instructions of the test block. */
  function TestInstrs(s: Code, test: nat): Code
    requires test < |s.f| && |s.f[test].phis| == 1
  {
    PutAt(PutAt(s, test, Load(s.next, s.f[test].phis[0].dst)), test, IcmpEqZero(s.next + 1, s.next))
  }

  lemma TestInstrsGood(c: Target, s: Code, test: nat)
    requires WF(s.f, s.avail, s.defs, s.next) && test < |s.f| && |s.f[test].phis| == 1 && s.f[test].instrs == []
    requires s.f[test].term.None?
    ensures var s' := TestInstrs(s, test);
            var h := s.f[test].phis[0].dst;
            && WF(s'.f, s'.avail, s'.defs, s'.next)
            && s'.f == s.f[test := s.f[test].(instrs := [Load(s.next, h), IcmpEqZero(s.next + 1, s.next)])]
            && s.avail[test] + {h, s.next + 1} <= OutRegs(s'.f[test], s.avail[test])
  {
    var h := s.f[test].phis[0].dst;
    var i, k := Load(s.next, h), IcmpEqZero(s.next + 1, s.next);
    OnePhiDst(s.f[test].phis[0]);
    assert s.f[test].phis == [s.f[test].phis[0]];
    AppendWF(s.f, s.avail, s.defs, s.next, test, i);
    var s1 := PutAt(s, test, i);
    AppendWF(s1.f, s1.avail, s1.defs, s1.next, test, k);
    assert [i] + [k] == [i, k];
    assert [] + [i] == [i];
  }

  /** Closing the test block and opening the block after the loop. */
  function LeaveTest(c: Target, s: Code, test: nat, body: nat): Code
    requires test < |s.f| && |s.f[test].phis| == 1 && s.next > 0
  {
    var h := s.f[test].phis[0].dst;
    var s2 := NewBlock(s, TapeRegs(c) + {h});
    s2.(f := AddPhi(Terminate(s2.f, test, CondBr(s.next - 1, |s.f|, body)), |s.f|, Phi(s.next, [Incoming(h, test)])),
        defs := s2.defs[s.next := PhiSite(|s.f|, 0)], next := s.next + 1, cur := |s.f|, head := s.next)
  }

  lemma LeaveTestGood(c: Target, s: Code, test: nat, body: nat)
    requires WF(s.f, s.avail, s.defs, s.next) && test < |s.f| && |s.f[test].phis| == 1 && s.f[test].term.None?
    requires s.next > 0 && {s.next - 1, s.f[test].phis[0].dst} + TapeRegs(c) <= OutRegs(s.f[test], s.avail[test])
    requires body < |s.f| && body != test && s.f[body].phis == []
    requires s.avail[body] == TapeRegs(c) + {s.f[test].phis[0].dst}
    ensures var s' := LeaveTest(c, s, test, body);
            && WF(s'.f, s'.avail, s'.defs, s'.next)
            && s'.f == s.f[test := s.f[test].(term := Some(CondBr(s.next - 1, |s.f|, body)))]
                       + [Block([Phi(s.next, [Incoming(s.f[test].phis[0].dst, test)])], [], None)]
            && TapeRegs(c) + {s'.head} <= CurOut(s')
  {
    var h := s.f[test].phis[0].dst;
    var exit := |s.f|;
    var t := CondBr(s.next - 1, exit, body);
    var s2 := NewBlock(s, TapeRegs(c) + {h});
    NewBlockWF(s.f, s.avail, s.defs, s.next, TapeRegs(c) + {h});
    TerminateWF(s2.f, s2.avail, s2.defs, s2.next, test, t);
    var f3 := Terminate(s2.f, test, t);
    forall q | 0 <= q < |f3| ensures HasTarget(f3[q], exit) <==> q == test {
      if q < exit { assert TermOK(s.f, s.avail, q); }
    }
    AddPhiWF(f3, s2.avail, s2.defs, s2.next, exit, test, h);
    OnePhiDst(Phi(s.next, [Incoming(h, test)]));
    var phi := Phi(s.next, [Incoming(h, test)]);
    assert [] + [phi] == [phi];
    assert AddPhi(f3, exit, phi) == s.f[test := s.f[test].(term := Some(t))] + [Block([phi], [], None)];
  }

  function EndLoop(c: Target, s: Code, test: nat, body: nat): Code
    requires s.cur < |s.f| && test < |s.f| && test != s.cur && |s.f[test].phis| == 1
  {
    LeaveTest(c, TestInstrs(CloseBody(s, test), test), test, body)
  }

  /** The function once a loop is closed, block by block. */
  lemma EndLoopBlocks(c: Target, s: Code, test: nat, body: nat)
    requires Good(c, s) && OpenLoop(c, s, test, body)
    ensures var s' := EndLoop(c, s, test, body);
            var phi := s.f[test].phis[0];
            var phi' := Phi(phi.dst, phi.incoming + [Incoming(s.head, s.cur)]);
            && WF(s'.f, s'.avail, s'.defs, s'.next) && TapeRegs(c) + {s'.head} <= CurOut(s')
            && s'.f == s.f[s.cur := s.f[s.cur].(term := Some(Br(test)))]
                          [test := Block([phi'], [Load(s.next, phi.dst), IcmpEqZero(s.next + 1, s.next)],
                                         Some(CondBr(s.next + 1, |s.f|, body)))]
                       + [Block([Phi(s.next + 2, [Incoming(phi.dst, test)])], [], None)]
            && phi.incoming[0].from != s.cur
  {
    hide WF, Footer;
    var s1 := CloseBody(s, test);
    CloseBodyGood(c, s, test, body);
    var s2 := TestInstrs(s1, test);
    TestInstrsGood(c, s1, test);
    LeaveTestGood(c, s2, test, body);
  }

  /** The loop is finished: its test block is complete, and apart from it old blocks have only been added to. */
  lemma EndLoopGood(c: Target, s: Code, test: nat, body: nat)
    requires Good(c, s) && OpenLoop(c, s, test, body)
    ensures var s' := EndLoop(c, s, test, body);
            var phi := s.f[test].phis[0];
            && Good(c, s') && GrowsBut(s.f, s'.f, {test}) && s.avail <= s'.avail && s.next <= s'.next
            && s'.cur == |s.f| == |s'.f| - 1 && s'.f[s'.cur].instrs == []
            && s'.f[s.cur] == s.f[s.cur].(term := Some(Br(test)))
            && s'.f[test].term.Some?
            && TestBlock(s'.f, test, Point(body, 0, phi.dst), Point(s'.cur, 0, s'.head))
            && s'.f[test].phis[0] == Phi(phi.dst, phi.incoming + [Incoming(s.head, s.cur)])
            && phi.incoming[0].from != s.cur
            && (forall b :: 0 <= b < |s.f| && b != s.cur && b != test ==> s'.f[b] == s.f[b])
  {
    EndLoopBlocks(c, s, test, body);
    var s' := EndLoop(c, s, test, body);
    forall b | 0 <= b < |s.f| && b != test ensures BlockGrows(s.f[b], s'.f[b]) {
    }
  }

  // ----- The header -----

  function HeaderEntry(c: Target, mem: nat): Code {
    var s0 := Code([EMPTY_BLOCK], [{}], map[], 0, 0, 0);
    var s1 := Put(Put(s0, Malloc(0, mem)), Memset0(ARR, mem));
    var s2 := if c.checked then Put(s1, Gep(2, ARR, mem)) else s1.(next := 3);
    Put(s2, Gep(3, ARR, mem / 2)).(head := 3)
  }

  function CloseAt(s: Code, b: nat, t: Term): Code
    requires b < |s.f|
  {
    s.(f := Terminate(s.f, b, t))
  }

  function HeaderEnd(s: Code): Code {
    CloseAt(PutAt(NewBlock(s, {ARR}), |s.f|, Free(ARR)), |s.f|, Ret)
  }

  function HeaderAbort(s: Code, endbb: nat): Code {
    CloseAt(PutAt(NewBlock(s, {ARR}), |s.f|, Puts), |s.f|, Br(endbb))
  }

  function HeaderCode(c: Target, mem: nat): Code {
    var s := HeaderEnd(HeaderEntry(c, mem));
    if c.checked then HeaderAbort(s, 1) else s
  }

  function EntryInstrs(c: Target, mem: nat): seq<Instr> {
    [Malloc(0, mem), Memset0(ARR, mem)] + (if c.checked then [Gep(2, ARR, mem)] else []) + [Gep(3, ARR, mem / 2)]
  }

  lemma WFNext(f: Func, avail: seq<set<Reg>>, defs: map<Reg, Site>, next: Reg, next': Reg)
    requires WF(f, avail, defs, next) && next <= next'
    ensures WF(f, avail, defs, next')
  {
  }

  lemma HeaderStart()
    ensures WF([EMPTY_BLOCK], [{}], map[], 0) && OutRegs(EMPTY_BLOCK, {}) == {}
  {
    assert PhiDsts([]) == {};
  }

  lemma HeaderEntryGood(c: Target, mem: nat)
    ensures var s := HeaderEntry(c, mem);
            && WF(s.f, s.avail, s.defs, s.next) && s.f == [Block([], EntryInstrs(c, mem), None)] && s.cur == 0 && s.head == 3
            && TapeRegs(c) + {3} <= CurOut(s) && s.next == 4
  {
    var s0 := Code([EMPTY_BLOCK], [{}], map[], 0, 0, 0);
    HeaderStart();
    AppendWF(s0.f, s0.avail, s0.defs, s0.next, 0, Malloc(0, mem));
    var s1 := Put(s0, Malloc(0, mem));
    AppendWF(s1.f, s1.avail, s1.defs, s1.next, 0, Memset0(ARR, mem));
    var s2 := Put(s1, Memset0(ARR, mem));
    assert s2.f[0].instrs == [Malloc(0, mem), Memset0(ARR, mem)];
    HeaderEntryRest(c, mem, s2);
  }

  lemma HeaderEntryRest(c: Target, mem: nat, s2: Code)
    requires WF(s2.f, s2.avail, s2.defs, s2.next) && s2.next == 2 && s2.cur == 0
    requires s2.f == [Block([], [Malloc(0, mem), Memset0(ARR, mem)], None)] && ARR in CurOut(s2)
    ensures var s3 := if c.checked then Put(s2, Gep(2, ARR, mem)) else s2.(next := 3);
            var s := Put(s3, Gep(3, ARR, mem / 2));
            && WF(s.f, s.avail, s.defs, s.next) && s.f == [Block([], EntryInstrs(c, mem), None)]
            && TapeRegs(c) + {3} <= CurOut(s) && s.next == 4
  {
    AppendWF(s2.f, s2.avail, s2.defs, s2.next, 0, Gep(2, ARR, mem));
    WFNext(s2.f, s2.avail, s2.defs, 2, 3);
    var s3 := if c.checked then Put(s2, Gep(2, ARR, mem)) else s2.(next := 3);
    AppendWF(s3.f, s3.avail, s3.defs, s3.next, 0, Gep(3, ARR, mem / 2));
    var s := Put(s3, Gep(3, ARR, mem / 2));
    assert s.f[0].instrs == EntryInstrs(c, mem);
  }

  /** A fixed block of one instruction. */
  lemma FixedBlock(s: Code, i: Instr, t: Term)
    requires WF(s.f, s.avail, s.defs, s.next) && i.Uses() <= {ARR} && i.Dsts() == {}
    requires t == Ret || (t.Br? && t.target < |s.f| && s.f[t.target].phis == [] && s.avail[t.target] <= {ARR})
    ensures var s' := CloseAt(PutAt(NewBlock(s, {ARR}), |s.f|, i), |s.f|, t);
            && WF(s'.f, s'.avail, s'.defs, s'.next) && s'.f == s.f + [Block([], [i], Some(t))]
            && s'.avail == s.avail + [{ARR}] && s'.next == s.next + 1 && s'.cur == s.cur && s'.head == s.head
  {
    var b := |s.f|;
    var s1 := NewBlock(s, {ARR});
    NewBlockWF(s.f, s.avail, s.defs, s.next, {ARR});
    assert PhiDsts([]) == {};
    AppendWF(s1.f, s1.avail, s1.defs, s1.next, b, i);
    var s2 := PutAt(s1, b, i);
    TerminateWF(s2.f, s2.avail, s2.defs, s2.next, b, t);
    assert [] + [i] == [i];
  }

  lemma HeaderGood(c: Target, mem: nat)
    requires c.endbb == 1 && c.aberrorbb == 2
    ensures var s := HeaderCode(c, mem);
            && Good(c, s) && s.cur == 0 && s.head == 3 && s.f[0] == Block([], EntryInstrs(c, mem), None)
            && forall b {:trigger s.f[b]} :: 0 < b < |s.f| ==> s.f[b].term.Some?
  {
    HeaderEntryGood(c, mem);
    var s1 := HeaderEntry(c, mem);
    FixedBlock(s1, Free(ARR), Ret);
    var s2 := HeaderEnd(s1);
    if c.checked { FixedBlock(s2, Puts, Br(1)); }
  }
}
