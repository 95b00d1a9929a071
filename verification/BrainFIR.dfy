/** The slice of SSA form that the BrainF compiler emits, and a machine that runs it.
    A function is a sequence of blocks; block 0 is entered first. */
module BrainFIR {
  import opened Options
  import opened BrainFSource

  type Reg = nat

  datatype Instr =
    | Malloc(dst: Reg, size: nat)            // dst := address of size fresh bytes
    | Memset0(ptr: Reg, size: nat)           // clear size bytes from ptr on
    | Free(ptr: Reg)
    | Puts                                   // print the out-of-bounds message
    | Getchar(dst: Reg)                      // i32, -1 at end of file
    | Putchar(src: Reg)
    | Trunc8(dst: Reg, src: Reg)             // i32 to i8
    | SExt32(dst: Reg, src: Reg)             // i8 to i32
    | Load(dst: Reg, ptr: Reg)
    | Store(src: Reg, ptr: Reg)
    | AddConst8(dst: Reg, src: Reg, n: int)  // i8 addition of a constant
    | Gep(dst: Reg, ptr: Reg, n: int)        // pointer plus a constant
    | IcmpUge(dst: Reg, a: Reg, b: Reg)
    | IcmpUlt(dst: Reg, a: Reg, b: Reg)
    | Or1(dst: Reg, a: Reg, b: Reg)
    | IcmpEqZero(dst: Reg, a: Reg)
  {
    function Dsts(): set<Reg> {
      if Memset0? || Free? || Puts? || Putchar? || Store? then {} else {dst}
    }

    function Uses(): set<Reg> {
      match this
      case Malloc(_, _) => {}
      case Memset0(p, _) => {p}
      case Free(p) => {p}
      case Puts => {}
      case Getchar(_) => {}
      case Putchar(s) => {s}
      case Trunc8(_, s) => {s}
      case SExt32(_, s) => {s}
      case Load(_, p) => {p}
      case Store(s, p) => {s, p}
      case AddConst8(_, s, _) => {s}
      case Gep(_, p, _) => {p}
      case IcmpUge(_, a, b) => {a, b}
      case IcmpUlt(_, a, b) => {a, b}
      case Or1(_, a, b) => {a, b}
      case IcmpEqZero(_, a) => {a}
    }
  }

  datatype Incoming = Incoming(val: Reg, from: nat)

  datatype Phi = Phi(dst: Reg, incoming: seq<Incoming>)

  datatype Term = Br(target: nat) | CondBr(cond: Reg, whenTrue: nat, whenFalse: nat) | Ret
  {
    function Targets(): set<nat> {
      match this
      case Br(b) => {b}
      case CondBr(_, b, c) => {b, c}
      case Ret => {}
    }

    function Uses(): set<Reg> { if CondBr? then {cond} else {} }
  }

  /** A block is open while it has no terminator; code is appended to open blocks only. */
  datatype Block = Block(phis: seq<Phi>, instrs: seq<Instr>, term: Option<Term>)

  const EMPTY_BLOCK := Block([], [], None)

  type Func = seq<Block>

  // ----- Running a function -----

  /** Where malloc puts the tape, and what successive calls of getchar return. */
  datatype Env = Env(base: int, input: nat -> int)

  /** Registers, the outside world, the extent of the memory that is allocated, and whether anything was ever loaded from or
      written to an address outside it. */
  datatype Mem = Mem(regs: map<Reg, int>, w: World, lo: int, hi: int, stray: bool)
  {
    /** An access to the n bytes from a on. */
    function Touch(a: int, n: nat): Mem { this.(stray := stray || (n > 0 && !(lo <= a && a + n <= hi))) }
  }

  datatype State =
    | At(block: nat, index: nat, m: Mem)
    | Halted(m: Mem)
    | Stuck

  function Bit(b: bool): int { if b then 1 else 0 }

  function Cleared(tape: map<int, Byte>, lo: int, size: nat): (r: map<int, Byte>)
    ensures forall a :: a in r <==> a in tape || lo <= a < lo + size
    ensures forall a :: a in r ==> r[a] == if lo <= a < lo + size then 0 else tape[a]
  {
    if size == 0 then tape else Cleared(tape, lo, size - 1)[lo + size - 1 := 0]
  }

  function Def(m: Mem, r: Reg, v: int): Mem { m.(regs := m.regs[r := v]) }

  /** The effect of one instruction whose operands are defined. */
  function Exec(i: Instr, env: Env, m: Mem): Mem
    requires i.Uses() <= m.regs.Keys
  {
    match i
    case Malloc(d, n) => Def(m, d, env.base).(lo := env.base, hi := env.base + n)
    case Memset0(p, n) => m.Touch(m.regs[p], n).(w := m.w.(tape := Cleared(m.w.tape, m.regs[p], n)))
    case Free(_) => m.(lo := 0, hi := 0)
    case Puts => m.(w := m.w.(events := m.w.events + [Message]))
    case Getchar(d) =>
      var x := env.input(m.w.consumed);
      Def(m, d, x).(w := m.w.(consumed := m.w.consumed + 1, events := m.w.events + [In(x)]))
    case Putchar(s) => m.(w := m.w.(events := m.w.events + [Out(m.regs[s] % 256)]))
    case Trunc8(d, s) => Def(m, d, m.regs[s] % 256)
    case SExt32(d, s) => Def(m, d, if m.regs[s] >= 128 then m.regs[s] - 256 else m.regs[s])
    case Load(d, p) => Def(m.Touch(m.regs[p], 1), d, m.w.Cell(m.regs[p]))
    case Store(s, p) =>
      m.Touch(m.regs[p], 1).(w := m.w.(tape := m.w.tape[m.regs[p] := m.regs[s] % 256]))
    case AddConst8(d, s, n) => Def(m, d, (m.regs[s] + n) % 256)
    case Gep(d, p, n) => Def(m, d, m.regs[p] + n)
    case IcmpUge(d, a, b) => Def(m, d, Bit(m.regs[a] >= m.regs[b]))
    case IcmpUlt(d, a, b) => Def(m, d, Bit(m.regs[a] < m.regs[b]))
    case Or1(d, a, b) => Def(m, d, Bit(m.regs[a] != 0 || m.regs[b] != 0))
    case IcmpEqZero(d, a) => Def(m, d, Bit(m.regs[a] == 0))
  }

  /** The register a phi takes its value from when control comes from block p. */
  function Pick(inc: seq<Incoming>, p: nat): Option<Reg> {
    if inc == [] then None
    else if inc[0].from == p then Some(inc[0].val)
    else Pick(inc[1..], p)
  }

  /** All phis of a block read the registers as they were before the branch; None when one of them has no
      entry for p or the entry is undefined. */
  function PhiMoves(phis: seq<Phi>, p: nat, regs: map<Reg, int>): Option<map<Reg, int>> {
    if phis == [] then Some(map[])
    else
      var r := Pick(phis[0].incoming, p);
      var rest := PhiMoves(phis[1..], p, regs);
      if r.None? || r.value !in regs || rest.None? then None
      else Some(rest.value[phis[0].dst := regs[r.value]])
  }

  function Goto(f: Func, p: nat, b: nat, m: Mem): State {
    if b >= |f| then Stuck
    else
      var moves := PhiMoves(f[b].phis, p, m.regs);
      if moves.None? then Stuck else At(b, 0, m.(regs := m.regs + moves.value))
  }

  function Leave(f: Func, p: nat, t: Option<Term>, m: Mem): State {
    if t.None? then Stuck
    else
      match t.value
      case Br(b) => Goto(f, p, b, m)
      case CondBr(c, b0, b1) =>
        if c !in m.regs then Stuck else Goto(f, p, if m.regs[c] != 0 then b0 else b1, m)
      case Ret => Halted(m)
  }

  function Step(f: Func, env: Env, s: State): State {
    if !s.At? then s
    else if s.block >= |f| then Stuck
    else
      var b := f[s.block];
      if s.index < |b.instrs| then
        var i := b.instrs[s.index];
        if i.Uses() <= s.m.regs.Keys then At(s.block, s.index + 1, Exec(i, env, s.m)) else Stuck
      else Leave(f, s.block, b.term, s.m)
  }

  function Run(f: Func, env: Env, s: State, n: nat): State
    decreases n
  {
    if n == 0 then s else Run(f, env, Step(f, env, s), n - 1)
  }

  lemma {:induction false} RunAdd(f: Func, env: Env, s: State, m: nat, n: nat)
    ensures Run(f, env, s, m + n) == Run(f, env, Run(f, env, s, m), n)
    decreases m
  {
    if m > 0 { RunAdd(f, env, Step(f, env, s), m - 1, n); }
  }

  lemma {:induction false} HaltedStays(f: Func, env: Env, s: State, n: nat)
    requires !s.At?
    ensures Run(f, env, s, n) == s
    decreases n
  {
    if n > 0 { HaltedStays(f, env, s, n - 1); }
  }

  /** One ordinary instruction. */
  lemma Step1(f: Func, env: Env, s: State)
    requires s.At? && s.block < |f| && s.index < |f[s.block].instrs|
    requires f[s.block].instrs[s.index].Uses() <= s.m.regs.Keys
    ensures Run(f, env, s, 1) == At(s.block, s.index + 1, Exec(f[s.block].instrs[s.index], env, s.m))
  {
    assert Run(f, env, s, 1) == Run(f, env, Step(f, env, s), 0);
  }

  /** One terminator. */
  lemma Step1Term(f: Func, env: Env, s: State)
    requires s.At? && s.block < |f| && s.index == |f[s.block].instrs|
    ensures Run(f, env, s, 1) == Leave(f, s.block, f[s.block].term, s.m)
  {
    assert Run(f, env, s, 1) == Run(f, env, Step(f, env, s), 0);
  }
}
