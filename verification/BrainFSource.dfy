/** The BrainF language as a reader sees it: characters, brackets, and an interpreter that
    executes one character of the source text at a time. Nothing here knows how the compiler works. */
module BrainFSource {

  type Byte = x: int | 0 <= x < 256

  /** What the outside world sees a program do, in order. */
  datatype Event = In(c: int) | Out(b: Byte) | Message

  /** The tape is total: a cell that was never written reads as 0. */
  datatype World = World(tape: map<int, Byte>, consumed: nat, events: seq<Event>) {
    function Cell(h: int): Byte { if h in tape then tape[h] else 0 }
  }

  // ----- Characters -----

  predicate IsMove(c: char) { c == '<' || c == '>' }

  predicate IsChange(c: char) { c == '+' || c == '-' }

  predicate IsCommand(c: char) { IsMove(c) || IsChange(c) || c == ',' || c == '.' || c == '[' || c == ']' }

  function Dir(c: char): int { if c == '-' || c == '<' then -1 else if c == '+' || c == '>' then 1 else 0 }

  /** Does c belong to the run kind (head moves, or cell changes)? */
  predicate OfKind(c: char, move: bool) { if move then IsMove(c) else IsChange(c) }

  /** The first command at or after position i, or |t|. */
  function Skip(t: string, i: nat): (k: nat)
    requires i <= |t|
    ensures i <= k <= |t|
    ensures k < |t| ==> IsCommand(t[k])
    ensures forall x :: i <= x < k ==> !IsCommand(t[x])
    decreases |t| - i
  {
    if i < |t| && !IsCommand(t[i]) then Skip(t, i + 1) else i
  }

  /** The first command at or after position i that is not of the run's kind, or |t|. */
  function RunEnd(t: string, i: nat, move: bool): (e: nat)
    requires i <= |t|
    ensures i <= e <= |t|
    ensures e < |t| ==> IsCommand(t[e]) && !OfKind(t[e], move)
    ensures forall x :: i <= x < e ==> !IsCommand(t[x]) || OfKind(t[x], move)
    decreases |t| - i
  {
    if i < |t| && (!IsCommand(t[i]) || OfKind(t[i], move)) then RunEnd(t, i + 1, move) else i
  }

  /** The net effect of the run commands in t[i..j]. */
  function Net(t: string, i: nat, j: nat): (n: int)
    requires i <= j <= |t|
    ensures -(j - i) <= n <= j - i
    decreases j
  {
    if i == j then 0 else Net(t, i, j - 1) + Dir(t[j - 1])
  }

  lemma {:induction false} NetFront(t: string, i: nat, j: nat)
    requires i < j <= |t|
    ensures Net(t, i, j) == Dir(t[i]) + Net(t, i + 1, j)
    decreases j
  {
    if i + 1 < j {
      NetFront(t, i, j - 1);
    } else {
      assert Net(t, i, i) == 0;
    }
  }

  /** Characters that are not commands change none of the scans. */
  lemma {:induction false} SkipOver(t: string, i: nat, j: nat)
    requires i <= j <= |t|
    requires forall x :: i <= x < j ==> !IsCommand(t[x])
    ensures Skip(t, i) == Skip(t, j)
    ensures forall m: bool :: RunEnd(t, i, m) == RunEnd(t, j, m)
    ensures forall a: nat :: a <= i ==> Net(t, a, j) == Net(t, a, i)
    decreases j - i
  {
    if i < j {
      SkipOver(t, i, j - 1);
    }
  }

  // ----- Brackets -----

  function Delta(c: char): int { if c == '[' then 1 else if c == ']' then -1 else 0 }

  /** Opening minus closing brackets in t[i..j]. */
  function Bal(t: string, i: nat, j: nat): int
    requires i <= j <= |t|
    decreases j
  {
    if i == j then 0 else Bal(t, i, j - 1) + Delta(t[j - 1])
  }

  ghost predicate Balanced(t: string) {
    Level(t, 0, |t|)
  }

  /** t[i..j] opens as many loops as it closes and never closes one it did not open. */
  ghost predicate Level(t: string, i: nat, j: nat) {
    i <= j <= |t| && Bal(t, i, j) == 0 && forall x :: i <= x <= j ==> Bal(t, i, x) >= 0
  }

  lemma {:induction false} BalSplit(t: string, i: nat, j: nat, k: nat)
    requires i <= j <= k <= |t|
    ensures Bal(t, i, k) == Bal(t, i, j) + Bal(t, j, k)
    decreases k
  {
    if j < k { BalSplit(t, i, j, k - 1); }
  }

  lemma {:induction false} BalFlat(t: string, i: nat, j: nat)
    requires i <= j <= |t|
    requires forall x :: i <= x < j ==> t[x] != '[' && t[x] != ']'
    ensures forall x :: i <= x <= j ==> Bal(t, i, x) == 0
    decreases j
  {
    if i < j { BalFlat(t, i, j - 1); }
  }

  lemma LevelStart(t: string, i: nat)
    requires i <= |t|
    ensures Level(t, i, i)
  {
    assert Bal(t, i, i) == 0;
  }

  /** Text without brackets extends a level stretch. */
  lemma LevelFlat(t: string, i: nat, j: nat, k: nat)
    requires Level(t, i, j) && j <= k <= |t|
    requires forall x :: j <= x < k ==> t[x] != '[' && t[x] != ']'
    ensures Level(t, i, k)
  {
    BalFlat(t, j, k);
    forall x | i <= x <= k ensures Bal(t, i, x) >= 0 {
      if j <= x { BalSplit(t, i, j, x); }
    }
    BalSplit(t, i, j, k);
  }

  /** A whole loop extends a level stretch. */
  lemma LevelLoop(t: string, i: nat, k: nat, m: nat)
    requires Level(t, i, k) && k < |t| && t[k] == '['
    requires Level(t, k + 1, m) && m < |t| && t[m] == ']'
    ensures Level(t, i, m + 1)
  {
    assert Bal(t, i, k + 1) == 1;
    forall x | i <= x <= m + 1 ensures Bal(t, i, x) >= 0 {
      if k < x <= m { BalSplit(t, i, k + 1, x); }
      if x == m + 1 { BalSplit(t, i, k + 1, m); assert Bal(t, i, x) == Bal(t, i, m) - 1; }
    }
    BalSplit(t, i, k + 1, m);
  }

  /** Brackets that are never closed. */
  lemma MissingClose(t: string, i: nat)
    requires i <= |t| && Bal(t, i, |t|) > 0
    ensures !Level(t, i, |t|)
  {
  }

  /** A bracket that closes nothing. */
  lemma ExtraClose(t: string, i: nat, k: nat)
    requires Level(t, i, k) && k < |t| && t[k] == ']'
    ensures !Level(t, i, |t|)
  {
    assert Bal(t, i, k + 1) == -1;
  }

  /** Scan forward from i for the bracket that closes depth d. */
  function Close(t: string, i: nat, d: nat): (m: nat)
    requires i <= |t|
    ensures i <= m <= |t|
    decreases |t| - i
  {
    if i == |t| then i
    else if t[i] == '[' then Close(t, i + 1, d + 1)
    else if t[i] == ']' then if d == 0 then i else Close(t, i + 1, d - 1)
    else Close(t, i + 1, d)
  }

  /** Scan backward from i for the bracket that opens depth d. */
  function Open(t: string, i: nat, d: nat): (k: nat)
    requires i <= |t|
    ensures k <= i
    decreases i
  {
    if i == 0 then 0
    else if t[i - 1] == ']' then Open(t, i - 1, d + 1)
    else if t[i - 1] == '[' then if d == 0 then i - 1 else Open(t, i - 1, d - 1)
    else Open(t, i - 1, d)
  }

  lemma {:induction false} CloseFrom(t: string, i: nat, x: nat, m: nat)
    requires Level(t, i, m) && m < |t| && t[m] == ']' && i <= x <= m
    ensures Close(t, x, Bal(t, i, x)) == m
    decreases m - x
  {
    if x < m {
      assert Bal(t, i, x + 1) >= 0;
      CloseFrom(t, i, x + 1, m);
    }
  }

  lemma {:induction false} OpenFrom(t: string, i: nat, x: nat)
    requires 0 < i <= x <= |t| && t[i - 1] == '['
    requires forall y :: i <= y <= x ==> Bal(t, i, y) >= 0
    ensures Open(t, x, Bal(t, i, x)) == i - 1
    decreases x
  {
    if i < x {
      assert Bal(t, i, x - 1) >= 0;
      OpenFrom(t, i, x - 1);
    }
  }

  /** A level stretch between two brackets makes them each other's partner, whichever way one scans. */
  lemma BracketsMatch(t: string, k: nat, m: nat)
    requires k < |t| && t[k] == '[' && Level(t, k + 1, m) && m < |t| && t[m] == ']'
    ensures Close(t, k + 1, 0) == m && Open(t, m, 0) == k
  {
    CloseFrom(t, k + 1, k + 1, m);
    OpenFrom(t, k + 1, m);
  }

  // ----- The reference interpreter -----

  /** What a run depends on besides the text: whether the head is checked against [lo, hi) after the
      last command of a run of moves, and what successive reads return (-1 at end of file). */
  datatype Setting = Setting(checked: bool, lo: int, hi: int, input: nat -> int)

  datatype State =
    | Running(pc: nat, head: int, w: World)
    | Finished(head: int, w: World)
    | LeftTape(head: int, w: World)

  /** Is the move at pc the last of its run, so that the head is looked at after it? */
  predicate LastMove(t: string, pc: nat)
    requires pc < |t|
  {
    var k := Skip(t, pc + 1);
    k == |t| || !IsMove(t[k])
  }

  function Step(t: string, env: Setting, s: State): State {
    if !s.Running? then s
    else if s.pc >= |t| then Finished(s.head, s.w)
    else
      var c := t[s.pc];
      var w := s.w;
      if IsChange(c) then
        Running(s.pc + 1, s.head, w.(tape := w.tape[s.head := (w.Cell(s.head) + Dir(c)) % 256]))
      else if IsMove(c) then
        var h := s.head + Dir(c);
        if env.checked && LastMove(t, s.pc) && !(env.lo <= h < env.hi) then
          LeftTape(h, w.(events := w.events + [Message]))
        else Running(s.pc + 1, h, w)
      else if c == ',' then
        var x := env.input(w.consumed);
        Running(s.pc + 1, s.head, World(w.tape[s.head := x % 256], w.consumed + 1, w.events + [In(x)]))
      else if c == '.' then
        Running(s.pc + 1, s.head, w.(events := w.events + [Out(w.Cell(s.head))]))
      else if c == '[' then
        if w.Cell(s.head) == 0 then Running(Close(t, s.pc + 1, 0) + 1, s.head, w) else Running(s.pc + 1, s.head, w)
      else if c == ']' then
        Running(Open(t, s.pc, 0), s.head, w)
      else
        Running(s.pc + 1, s.head, w)
  }

  function Run(t: string, env: Setting, s: State, n: nat): State
    decreases n
  {
    if n == 0 then s else Run(t, env, Step(t, env, s), n - 1)
  }

  lemma {:induction false} RunAdd(t: string, env: Setting, s: State, m: nat, n: nat)
    ensures Run(t, env, s, m + n) == Run(t, env, Run(t, env, s, m), n)
    decreases m
  {
    if m > 0 { RunAdd(t, env, Step(t, env, s), m - 1, n); }
  }

  lemma {:induction false} HaltedStays(t: string, env: Setting, s: State, n: nat)
    requires !s.Running?
    ensures Run(t, env, s, n) == s
    decreases n
  {
    if n > 0 { HaltedStays(t, env, s, n - 1); }
  }

  // ----- Runs of commands, executed one character at a time, have their net effect -----

  lemma {:induction false} RunComments(t: string, env: Setting, s: State, k: nat)
    requires s.Running? && s.pc <= k <= |t|
    requires forall x :: s.pc <= x < k ==> !IsCommand(t[x])
    ensures Run(t, env, s, k - s.pc) == s.(pc := k)
    decreases k - s.pc
  {
    if s.pc < k { RunComments(t, env, s.(pc := s.pc + 1), k); }
  }

  /** One change, then comments up to the next command. */
  lemma ChangeThenComments(t: string, env: Setting, s: State, k: nat)
    requires s.Running? && s.pc < k <= |t| && IsChange(t[s.pc])
    requires forall x :: s.pc < x < k ==> !IsCommand(t[x])
    ensures Run(t, env, s, k - s.pc) ==
            Running(k, s.head, s.w.(tape := s.w.tape[s.head := (s.w.Cell(s.head) + Dir(t[s.pc])) % 256]))
  {
    RunComments(t, env, Step(t, env, s), k);
  }

  /** From a change command on, a run of changes adds its net effect, modulo 256, to one cell. */
  lemma {:induction false} RunChanges(t: string, env: Setting, s: State, e: nat)
    requires s.Running? && s.pc < e <= |t| && IsChange(t[s.pc])
    requires forall x :: s.pc <= x < e ==> !IsCommand(t[x]) || IsChange(t[x])
    ensures Run(t, env, s, e - s.pc) ==
            Running(e, s.head, s.w.(tape := s.w.tape[s.head := (s.w.Cell(s.head) + Net(t, s.pc, e)) % 256]))
    decreases e - s.pc
  {
    hide Run, Step, Skip;
    var k := if Skip(t, s.pc + 1) < e then Skip(t, s.pc + 1) else e;
    NetFront(t, s.pc, e);
    NetOver(t, s.pc + 1, k, e);
    ChangeThenComments(t, env, s, k);
    if k < e {
      var s1 := Running(k, s.head, s.w.(tape := s.w.tape[s.head := (s.w.Cell(s.head) + Dir(t[s.pc])) % 256]));
      RunChanges(t, env, s1, e);
      RunAdd(t, env, s, k - s.pc, e - k);
      TwoWrites(s.w.tape, s.head, s.w.Cell(s.head), Dir(t[s.pc]), Net(t, k, e));
    }
  }

  lemma TwoWrites(m: map<int, Byte>, h: int, c: Byte, a: int, b: int)
    ensures m[h := (c + a) % 256][h := ((c + a) % 256 + b) % 256] == m[h := (c + (a + b)) % 256]
  {
  }

  /** Leading comments contribute nothing to a net effect. */
  lemma {:induction false} NetOver(t: string, i: nat, k: nat, e: nat)
    requires i <= k <= e <= |t|
    requires forall x :: i <= x < k ==> !IsCommand(t[x])
    ensures Net(t, i, e) == Net(t, k, e)
    decreases k - i
  {
    if i < k {
      NetFront(t, i, e);
      NetOver(t, i + 1, k, e);
    }
  }

  /** One move that is not the last of its run, then comments up to the next command. */
  lemma MoveThenComments(t: string, env: Setting, s: State, k: nat)
    requires s.Running? && s.pc < |t| && IsMove(t[s.pc]) && k == Skip(t, s.pc + 1)
    requires !LastMove(t, s.pc) || !env.checked || env.lo <= s.head + Dir(t[s.pc]) < env.hi
    ensures Run(t, env, s, k - s.pc) == Running(k, s.head + Dir(t[s.pc]), s.w)
  {
    RunComments(t, env, Step(t, env, s), k);
  }

  /** What a whole run of moves starting at s.pc leaves behind. */
  function AfterMoves(t: string, env: Setting, s: State): State
    requires s.Running? && s.pc <= |t|
  {
    var e := RunEnd(t, s.pc, true);
    var h := s.head + Net(t, s.pc, e);
    if env.checked && !(env.lo <= h < env.hi) then LeftTape(h, s.w.(events := s.w.events + [Message]))
    else Running(e, h, s.w)
  }

  /** From a move on, a maximal run of moves adds its net effect to the head and, in checked mode, looks at
      the head once, at the end. The run takes n steps. */
  lemma {:induction false} RunMoves(t: string, env: Setting, s: State) returns (n: nat)
    requires s.Running? && s.pc < |t| && IsMove(t[s.pc])
    ensures n >= 1 && Run(t, env, s, n) == AfterMoves(t, env, s)
    decreases |t| - s.pc
  {
    hide RunEnd, Net, Step, Skip;
    var k := Skip(t, s.pc + 1);
    FirstMove(t, s.pc);
    if !LastMove(t, s.pc) {
      MoveThenComments(t, env, s, k);
      var s1 := Running(k, s.head + Dir(t[s.pc]), s.w);
      var m := RunMoves(t, env, s1);
      RunAdd(t, env, s, k - s.pc, m);
      n := k - s.pc + m;
    } else {
      n := LastOfMoves(t, env, s, k);
    }
  }

  /** A run of moves is its first move and the run from the next command on. */
  lemma FirstMove(t: string, pc: nat)
    requires pc < |t| && IsMove(t[pc])
    ensures var k := Skip(t, pc + 1);
            && RunEnd(t, pc, true) == RunEnd(t, k, true)
            && Net(t, pc, RunEnd(t, k, true)) == Dir(t[pc]) + Net(t, k, RunEnd(t, k, true))
    ensures LastMove(t, pc) ==> RunEnd(t, Skip(t, pc + 1), true) == Skip(t, pc + 1)
  {
    var k := Skip(t, pc + 1);
    var e := RunEnd(t, k, true);
    NetFront(t, pc, e);
    SkipOver(t, pc + 1, k);
    NetOver(t, pc + 1, k, e);
  }

  lemma LastOfMoves(t: string, env: Setting, s: State, k: nat) returns (n: nat)
    requires s.Running? && s.pc < |t| && IsMove(t[s.pc]) && k == Skip(t, s.pc + 1) && LastMove(t, s.pc)
    ensures n >= 1
    ensures var h := s.head + Dir(t[s.pc]);
            Run(t, env, s, n) ==
              if env.checked && !(env.lo <= h < env.hi) then LeftTape(h, s.w.(events := s.w.events + [Message]))
              else Running(k, h, s.w)
  {
    if env.checked && !(env.lo <= s.head + Dir(t[s.pc]) < env.hi) {
      n := 1;
      assert Run(t, env, s, 1) == Run(t, env, Step(t, env, s), 0);
    } else {
      MoveThenComments(t, env, s, k);
      n := k - s.pc;
    }
  }
}
