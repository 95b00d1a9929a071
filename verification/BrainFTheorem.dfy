/** The main result: a compiled program, started at its entry block on any memory and any input, does what the
    one-character-at-a-time interpreter does on the text. */
module BrainFTheorem {
  import opened Options
  import opened BrainFSource
  import opened BrainFIR
  import opened BrainFSync
  import opened BrainFWellFormed
  import opened BrainFBuilder
  import opened BrainFTrack
  import opened BrainFCorrectness
  import Src = BrainFSource
  import Ir = BrainFIR

  /** A text, its compiled function with the register that holds the head at the end, and one surrounding: where
      the tape lies, what memory held before, and what is read. */
  datatype Case = Case(t: string, checked: bool, size: nat, f: Func, final: Reg, base: int, before: map<int, Byte>,
                       input: nat -> int)
  {
    /** The interpreter starts in the middle of a cleared tape. */
    function Src0(): Src.State { Src.Running(0, base + size / 2, World(Cleared(before, base, size), 0, [])) }

    /** The machine starts at the entry block with no register defined. */
    function Ir0(): Ir.State { At(0, 0, Mem(map[], World(before, 0, []), 0, 0, false)) }

    function SrcAt(n: nat): Src.State { Src.Run(t, Src.Setting(checked, base, base + size, input), Src0(), n) }

    function IrAt(n: nat): Ir.State { Ir.Run(f, Ir.Env(base, input), Ir0(), n) }

    /** Same reads, writes and message in the same order, same tape; a program that ran to its end has the same head;
        one that left the tape did so in checked mode, off the tape. */
    ghost predicate SameEnd(s: Src.State, u: Ir.State) {
      && !s.Running? && u.Halted? && u.m.w == s.w
      && (s.Finished? ==> final in u.m.regs && u.m.regs[final] == s.head)
      && (s.LeftTape? ==> checked && !(base <= s.head < base + size))
    }

    ghost predicate SrcSeen(n: nat) { !SrcAt(n).Running? ==> exists m :: SameEnd(SrcAt(n), IrAt(m)) }

    ghost predicate IrSeen(n: nat) { !IrAt(n).At? ==> exists k :: SameEnd(SrcAt(k), IrAt(n)) }

    ghost predicate CodeKeepsUp(n: nat) { exists m :: !IrAt(m).Stuck? && SrcAt(n).w.events <= IrAt(m).m.w.events }

    ghost predicate TextKeepsUp(n: nat) {
      !IrAt(n).Stuck? && exists k :: IrAt(n).m.w.events <= SrcAt(k).w.events
    }

    /** Everything loaded from, stored to or cleared in the first n steps is memory that was allocated. */
    ghost predicate AccessesOnTape(n: nat) { IrAt(n).Stuck? || !IrAt(n).m.stray }

    ghost predicate SameBehaviour() {
      && (forall n: nat :: SrcSeen(n)) && (forall n: nat :: IrSeen(n))
      && (forall n: nat :: CodeKeepsUp(n)) && (forall n: nat :: TextKeepsUp(n))
    }

    ghost predicate StaysOnTape() { forall n: nat :: AccessesOnTape(n) }
  }

  /** There is a tape, or the text does not look at it before the first move, which finds that there is none. */
  predicate TapeSuffices(t: string, size: nat) { size >= 1 || MovesFirst(t, 0) }

  /** The compiled function of a text, for every surrounding. In checked mode it stays on the tape exactly if the tape
      suffices for the text. */
  ghost predicate Implements(t: string, checked: bool, size: nat, f: Func, final: Reg) {
    forall base: int, before: map<int, Byte>, input: nat -> int ::
      var x := Case(t, checked, size, f, final, base, before, input);
      x.SameBehaviour() && (checked ==> (x.StaysOnTape() <==> TapeSuffices(t, size)))
  }

  /** What the compiler knows about its output. */
  ghost predicate Output(t: string, c: Target, size: nat, s: Code, S: Ties) {
    && Complete(t, c, s, S, {}, {})
    && Tied(S, 0, Point(0, |EntryInstrs(c, size)|, 3))
    && |s.f| > 0 && s.f[0].phis == [] && EntryInstrs(c, size) <= s.f[0].instrs
  }

  function JobOf(x: Case, c: Target, S: Ties, safe: bool): Job { Job(x.t, c, x.f, S, x.base, x.size, x.input, safe) }

  /** The memory after malloc and memset. */
  function ClearedMem(x: Case): Mem {
    Mem(map[ARR := x.base], World(Cleared(x.before, x.base, x.size), 0, []), x.base, x.base + x.size, false)
  }

  lemma HeaderClears(x: Case, e: seq<Instr>)
    requires |x.f| > 0 && |e| >= 2 && e <= x.f[0].instrs && e[0] == Malloc(0, x.size) && e[1] == Memset0(ARR, x.size)
    ensures x.IrAt(2) == At(0, 2, ClearedMem(x))
  {
    var env := Ir.Env(x.base, x.input);
    var m1 := Mem(map[ARR := x.base], World(x.before, 0, []), x.base, x.base + x.size, false);
    assert x.f[0].instrs[0] == e[0] && x.f[0].instrs[1] == e[1];
    Step1(x.f, env, x.Ir0());
    Step1(x.f, env, At(0, 1, m1));
    Ir.RunAdd(x.f, env, x.Ir0(), 1, 1);
  }

  /** A pointer computation of the header. */
  lemma HeaderGep(x: Case, k: nat, m: Mem, i: Instr)
    requires |x.f| > 0 && k < |x.f[0].instrs| && x.f[0].instrs[k] == i && i.Gep? && i.ptr in m.regs
    requires x.IrAt(k) == At(0, k, m)
    ensures x.IrAt(k + 1) == At(0, k + 1, Def(m, i.dst, m.regs[i.ptr] + i.n))
  {
    var env := Ir.Env(x.base, x.input);
    Step1(x.f, env, x.IrAt(k));
    Ir.RunAdd(x.f, env, x.Ir0(), k, 1);
  }

  /** After the header the two machines are in step, whether or not we follow that the head is on the tape. */
  lemma HeaderRuns(x: Case, c: Target, s: Code, S: Ties) returns (h: nat)
    requires c.checked == x.checked && s.f == x.f && Output(x.t, c, x.size, s, S)
    ensures JobOf(x, c, S, false).InStep(x.Src0(), x.IrAt(h)) && !x.IrAt(h).m.stray
    ensures x.checked && TapeSuffices(x.t, x.size) ==> JobOf(x, c, S, true).Starts(x.Src0(), x.IrAt(h))
  {
    hide Complete, Case.IrAt, Case.SrcAt;
    var e := EntryInstrs(c, x.size);
    assert forall i :: 0 <= i < |e| ==> x.f[0].instrs[i] == e[i];
    HeaderClears(x, e);
    var m := ClearedMem(x);
    if c.checked {
      HeaderGep(x, 2, m, Gep(ARRMAX, ARR, x.size));
      m := Def(m, ARRMAX, x.base + x.size);
    }
    h := |e|;
    HeaderGep(x, h - 1, m, Gep(3, ARR, x.size / 2));
  }

  lemma IsCompiled(x: Case, c: Target, s: Code, S: Ties, safe: bool)
    requires c.checked == x.checked && s.f == x.f && Output(x.t, c, x.size, s, S) && (safe ==> x.checked)
    ensures JobOf(x, c, S, safe).Compiled()
  {
  }

  /** Seen from the entry block, both directions, for runs that stop and runs that do not. */
  lemma BehavesAlike(x: Case, c: Target, s: Code, S: Ties, n: nat)
    requires c.checked == x.checked && s.f == x.f && Output(x.t, c, x.size, s, S) && c.final == Some(x.final)
    ensures x.SrcSeen(n) && x.IrSeen(n) && x.CodeKeepsUp(n) && x.TextKeepsUp(n)
    ensures x.checked && TapeSuffices(x.t, x.size) ==> x.AccessesOnTape(n)
  {
    hide Output, Complete, TapeSuffices, Job.Compiled, Job.InStep, Job.Starts;
    var h := HeaderRuns(x, c, s, S);
    IsCompiled(x, c, s, S, false);
    InStepStarts(JobOf(x, c, S, false), x.Src0(), x.IrAt(h));
    FromHeader(x, JobOf(x, c, S, false), h, n);
    if x.checked && TapeSuffices(x.t, x.size) {
      IsCompiled(x, c, s, S, true);
      FromHeader(x, JobOf(x, c, S, true), h, n);
    }
  }

  lemma FromHeader(x: Case, j: Job, h: nat, n: nat)
    requires Fits(x, j, h)
    ensures x.SrcSeen(n) && x.IrSeen(n) && x.CodeKeepsUp(n) && x.TextKeepsUp(n) && (j.safe ==> x.AccessesOnTape(n))
  {
    hide Fits;
    TextSide(x, j, h, n);
    if n >= h { CodeSide(x, j, h, n - h); } else { CodeEarly(x, j, h, n); }
  }

  /** A job that describes a case from step h of its machine on. */
  ghost predicate Fits(x: Case, j: Job, h: nat) {
    && j.t == x.t && j.f == x.f && j.base == x.base && j.size == x.size && j.input == x.input
    && j.c.checked == x.checked && j.c.final == Some(x.final)
    && j.Compiled() && j.Starts(x.Src0(), x.IrAt(h)) && !x.IrAt(h).m.stray
  }

  lemma TextSide(x: Case, j: Job, h: nat, n: nat)
    requires Fits(x, j, h)
    ensures x.SrcSeen(n) && x.CodeKeepsUp(n)
  {
    hide Job.Compiled, Job.Starts, Job.BothStopped;
    if !x.SrcAt(n).Running? {
      var m := CodeStopsToo(j, x.Src0(), x.IrAt(h), n);
      j.IrThen(x.Ir0(), h, m);
      StoppedSame(x, j, x.SrcAt(n), x.IrAt(h + m));
    }
    var m := CodeCatchesUp(j, x.Src0(), x.IrAt(h), n);
    j.IrThen(x.Ir0(), h, m);
    assert x.SrcAt(n).w.events <= x.IrAt(h + m).m.w.events;
  }

  lemma StoppedSame(x: Case, j: Job, s: Src.State, u: Ir.State)
    requires j.base == x.base && j.size == x.size && j.c.checked == x.checked && j.c.final == Some(x.final)
    requires j.BothStopped(s, u)
    ensures x.SameEnd(s, u)
  {
  }

  lemma CodeSide(x: Case, j: Job, h: nat, n: nat)
    requires Fits(x, j, h)
    ensures x.IrSeen(h + n) && x.TextKeepsUp(h + n) && (j.safe ==> x.AccessesOnTape(h + n))
  {
    hide Job.Compiled, Job.Starts, Job.BothStopped;
    j.IrThen(x.Ir0(), h, n);
    if !x.IrAt(h + n).At? {
      var k := InterpreterStopsToo(j, x.Src0(), x.IrAt(h), n);
      StoppedSame(x, j, x.SrcAt(k), x.IrAt(h + n));
    }
    var k := InterpreterCatchesUp(j, x.Src0(), x.IrAt(h), n);
    assert x.IrAt(h + n).m.w.events <= x.SrcAt(k).w.events;
  }

  lemma CodeEarly(x: Case, j: Job, h: nat, n: nat)
    requires Fits(x, j, h) && n < h
    ensures x.IrSeen(n) && x.TextKeepsUp(n) && x.AccessesOnTape(n)
  {
    hide Job.Compiled;
    j.IrThen(x.Ir0(), n, h - n);
    IrMemGrows(j, x.IrAt(n), h - n);
    if !x.IrAt(n).At? { IrStopsForGood(j, x.Ir0(), n, h); }
    assert x.SrcAt(0) == x.Src0();
    assert x.IrAt(n).m.w.events <= x.SrcAt(0).w.events;
  }

  /** Without a tape, a first command that is not a move reaches for a cell that is not there. */
  lemma LeavesTape(x: Case, c: Target, s: Code, S: Ties)
    requires c.checked == x.checked && s.f == x.f && Output(x.t, c, x.size, s, S) && !TapeSuffices(x.t, x.size)
    ensures !x.StaysOnTape()
  {
    hide Output, Complete, Job.Compiled, Job.InStep, Case.IrAt, MovesFirst;
    var j := JobOf(x, c, S, false);
    var h := HeaderRuns(x, c, s, S);
    IsCompiled(x, c, s, S, false);
    var m := FirstAccess(j, x.Src0(), x.IrAt(h));
    JobThen(x, j, h, m);
    assert x.Src0().head == x.base;
    assert !x.AccessesOnTape(h + m);
  }

  lemma JobThen(x: Case, j: Job, h: nat, m: nat)
    requires j.f == x.f && j.base == x.base && j.input == x.input
    ensures x.IrAt(h + m) == j.IrRun(x.IrAt(h), m)
  {
    j.IrThen(x.Ir0(), h, m);
  }

  /** In checked mode every access is on the tape exactly if there is a tape, or the text moves before it looks. */
  lemma TapeDecides(x: Case, c: Target, s: Code, S: Ties)
    requires c.checked && x.checked && s.f == x.f && Output(x.t, c, x.size, s, S) && c.final == Some(x.final)
    ensures x.StaysOnTape() <==> TapeSuffices(x.t, x.size)
  {
    hide Output, Complete, TapeSuffices, Case.AccessesOnTape;
    if TapeSuffices(x.t, x.size) {
      forall n: nat ensures x.AccessesOnTape(n) { BehavesAlike(x, c, s, S, n); }
    } else {
      LeavesTape(x, c, s, S);
    }
  }

  /** The compiler's output implements the text and is in SSA form. */
  lemma OutputCorrect(t: string, c: Target, size: nat, s: Code, S: Ties)
    requires Output(t, c, size, s, S)
    ensures Implements(t, c.checked, size, s.f, c.final.value)
    ensures SSA(s.f)
  {
    hide TapeSuffices, Case.AccessesOnTape, Case.StaysOnTape, Case.SrcSeen, Case.IrSeen, Case.CodeKeepsUp, Case.TextKeepsUp, SSA;
    FinishedIsSSA(s.f, s.avail, s.defs, s.next);
    forall base: int, before: map<int, Byte>, input: nat -> int
      ensures var x := Case(t, c.checked, size, s.f, c.final.value, base, before, input);
              x.SameBehaviour() && (c.checked ==> (x.StaysOnTape() <==> TapeSuffices(t, size)))
    {
      var x := Case(t, c.checked, size, s.f, c.final.value, base, before, input);
      forall n: nat ensures x.SrcSeen(n) && x.IrSeen(n) && x.CodeKeepsUp(n) && x.TextKeepsUp(n) {
        BehavesAlike(x, c, s, S, n);
      }
      if c.checked { TapeDecides(x, c, s, S); }
    }
  }
}
