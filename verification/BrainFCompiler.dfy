/** The compiler: one object that reads the source text, keeps one symbol of lookahead, and writes SSA code. */
module BrainFCompiler {
  import opened Options
  import opened BrainFSource
  import opened BrainFIR
  import opened BrainFSync
  import opened BrainFWellFormed
  import opened BrainFBuilder
  import opened BrainFTrack
  import opened BrainFTheorem

  datatype Symbol = NONE | READ | WRITE | MOVE | CHANGE | LOOP | ENDLOOP | EOF

  // ----- The lexer, as seen from the text -----

  function SymbolOf(c: char): Symbol {
    if IsChange(c) then CHANGE
    else if IsMove(c) then MOVE
    else if c == ',' then READ
    else if c == '.' then WRITE
    else if c == '[' then LOOP
    else if c == ']' then ENDLOOP
    else NONE
  }

  predicate IsRun(s: Symbol) { s == MOVE || s == CHANGE }

  predicate IsSpace(c: char) { c == ' ' || 9 <= c as int <= 13 }

  /** The symbol at position e has been read ahead: the stream stands one past it. */
  predicate ReadAhead(t: string, e: nat, sym: Symbol, val: int, pos: nat) {
    e <= |t| &&
    if e == |t| then sym == EOF && pos == |t|
    else IsCommand(t[e]) && sym == SymbolOf(t[e]) && pos == e + 1 && (IsRun(sym) ==> val == Dir(t[e]))
  }

  /** sym, with its net value, is the next symbol of the text from at on, and a maximal run if it is one; a run's
      end is known only from the symbol after it, which has then been read ahead. */
  predicate Lexed(t: string, at: nat, sym: Symbol, val: int, nextsym: Symbol, nextval: int, pos: nat) {
    at <= |t| &&
    var k := Skip(t, at);
    if k == |t| then sym == EOF && nextsym == NONE && pos == |t|
    else
      sym == SymbolOf(t[k]) &&
      if IsRun(sym) then
        var e := RunEnd(t, k, sym == MOVE);
        val == Net(t, k, e) && ReadAhead(t, e, nextsym, nextval, pos)
      else nextsym == NONE && pos == k + 1
  }

  /** Halfway: no command seen yet, or the first part of a run. */
  predicate HalfLexed(t: string, at: nat, sym: Symbol, val: int, pos: nat) {
    at <= pos <= |t| &&
    var k := Skip(t, at);
    if sym == NONE then k == Skip(t, pos)
    else
      && IsRun(sym) && k < pos && sym == SymbolOf(t[k])
      && RunEnd(t, k, sym == MOVE) == RunEnd(t, pos, sym == MOVE)
      && val == Net(t, k, pos)
  }

  lemma ReadAheadIsNext(t: string, at: nat, sym: Symbol, val: int, pos: nat)
    requires ReadAhead(t, at, sym, val, pos)
    ensures if IsRun(sym) then HalfLexed(t, at, sym, val, pos) else Lexed(t, at, sym, val, NONE, 0, pos)
    ensures sym != NONE
  {
    if at < |t| {
      assert Net(t, at, at) == 0;
      assert Net(t, at, at + 1) == Dir(t[at]);
    }
  }

  /** White space does not matter. */
  lemma HalfLexedOver(t: string, at: nat, sym: Symbol, val: int, pos: nat, q: nat)
    requires HalfLexed(t, at, sym, val, pos) && pos <= q <= |t|
    requires forall x :: pos <= x < q ==> !IsCommand(t[x])
    ensures HalfLexed(t, at, sym, val, q)
  {
    SkipOver(t, pos, q);
  }

  lemma HalfLexedEnd(t: string, at: nat, sym: Symbol, val: int, v: int)
    requires HalfLexed(t, at, sym, val, |t|)
    ensures sym == NONE ==> Lexed(t, at, EOF, val, NONE, v, |t|)
    ensures sym != NONE ==> Lexed(t, at, sym, val, EOF, v, |t|)
  {
  }

  /** One more character that starts or continues a run. */
  lemma HalfLexedRun(t: string, at: nat, sym: Symbol, val: int, q: nat)
    requires HalfLexed(t, at, sym, val, q) && q < |t| && IsRun(SymbolOf(t[q]))
    ensures sym == NONE ==> HalfLexed(t, at, SymbolOf(t[q]), Dir(t[q]), q + 1)
    ensures sym == SymbolOf(t[q]) ==> HalfLexed(t, at, sym, val + Dir(t[q]), q + 1)
  {
    assert Net(t, q, q) == 0;
    assert Net(t, q, q + 1) == Dir(t[q]);
  }

  /** One more character that ends what was being read. */
  lemma HalfLexedStop(t: string, at: nat, sym: Symbol, val: int, v: int, q: nat)
    requires HalfLexed(t, at, sym, val, q) && q < |t| && IsCommand(t[q])
    ensures sym == NONE && !IsRun(SymbolOf(t[q])) ==> Lexed(t, at, SymbolOf(t[q]), val, NONE, v, q + 1)
    ensures sym != NONE && sym != SymbolOf(t[q]) ==>
      Lexed(t, at, sym, val, SymbolOf(t[q]), if IsRun(SymbolOf(t[q])) then Dir(t[q]) else v, q + 1)
  {
  }

  /** What the lexer holds after a character, and whether it wants another one. */
  datatype Lexeme = Lexeme(sym: Symbol, val: int, next: Symbol, nextval: int, loop: bool)

  function AfterChar(c: char, sym: Symbol, val: int, nextval: int): Lexeme {
    var s := SymbolOf(c);
    if s == NONE then Lexeme(sym, val, NONE, nextval, true)
    else if IsRun(s) && sym == NONE then Lexeme(s, Dir(c), NONE, nextval, true)
    else if IsRun(s) && sym == s then Lexeme(sym, val + Dir(c), NONE, nextval, true)
    else if sym == NONE then Lexeme(s, val, NONE, nextval, false)
    else Lexeme(sym, val, s, if IsRun(s) then Dir(c) else nextval, false)
  }

  lemma AfterCharLexed(t: string, at: nat, sym: Symbol, val: int, nextval: int, q: nat)
    requires HalfLexed(t, at, sym, val, q) && q < |t|
    ensures var l := AfterChar(t[q], sym, val, nextval);
            if l.loop then l.next == NONE && HalfLexed(t, at, l.sym, l.val, q + 1)
            else Lexed(t, at, l.sym, l.val, l.next, l.nextval, q + 1)
  {
    if !IsCommand(t[q]) {
      HalfLexedOver(t, at, sym, val, q, q + 1);
    } else {
      HalfLexedStop(t, at, sym, val, nextval, q);
      if IsRun(SymbolOf(t[q])) { HalfLexedRun(t, at, sym, val, q); }
    }
  }

  // ----- One command -----

  /** The code of one run or input/output command. */
  function Emitted(c: Target, s: Code, sym: Symbol, val: int): Code
    requires s.cur < |s.f|
  {
    match sym
    case READ => EmitRead(s)
    case WRITE => EmitWrite(s)
    case MOVE => EmitMove(c, s, val)
    case CHANGE => EmitChange(s, val)
    case _ => s
  }

  /** Where the command found after at ends. */
  function EndOf(t: string, at: nat, sym: Symbol): nat
    requires at <= |t| && Skip(t, at) < |t|
  {
    if IsRun(sym) then RunEnd(t, Skip(t, at), sym == MOVE) else Skip(t, at) + 1
  }

  lemma TrackCommand(t: string, c: Target, s: Code, S: Ties, open: set<nat>, pend: set<nat>, at: nat,
                     sym: Symbol, val: int, nextsym: Symbol, nextval: int, pos: nat)
    requires Track(t, c, s, S, open, pend, at) && Lexed(t, at, sym, val, nextsym, nextval, pos)
    requires sym in {READ, WRITE, MOVE, CHANGE}
    ensures s.cur < |s.f| && Skip(t, at) < |t|
    ensures var e := EndOf(t, at, sym); var s' := Emitted(c, s, sym, val); var S' := S[e := HereOrOrigin(s')];
            at < e <= |t| && Track(t, c, s', S', open, pend, e) && Framed(s, S, s', S', {})
  {
    hide Track, Framed, EmitRead, EmitWrite, EmitChange, EmitMove, Net, HereOrOrigin;
    match sym
    case READ => TrackRead(t, c, s, S, open, pend, at);
    case WRITE => TrackWrite(t, c, s, S, open, pend, at);
    case MOVE => TrackMove(t, c, s, S, open, pend, at, val);
    case CHANGE => TrackChange(t, c, s, S, open, pend, at, val);
  }

  /** The text of a command does not change the bracket level, and what follows it has been read ahead or not. */
  lemma CommandFlat(t: string, start: nat, at: nat, sym: Symbol, val: int, nextsym: Symbol, nextval: int, pos: nat)
    requires start <= at && Level(t, start, at) && Lexed(t, at, sym, val, nextsym, nextval, pos)
    requires sym in {READ, WRITE, MOVE, CHANGE}
    ensures Skip(t, at) < |t|
    ensures var e := EndOf(t, at, sym);
            && at < e <= |t| && Level(t, start, e)
            && if IsRun(sym) then ReadAhead(t, e, nextsym, nextval, pos) else nextsym == NONE && pos == e
  {
    hide Level, Net;
    LevelFlat(t, start, at, EndOf(t, at, sym));
  }

  class BrainF {
    const input: string
    const memtotal: nat
    const checked: bool

    // The stream and the builder
    var pos: nat
    var f: Func
    var cur: nat
    var curhead: Reg
    var nextreg: Reg
    var endbb: nat
    var aberrorbb: nat

    ghost var avail: seq<set<Reg>>
    ghost var defs: map<Reg, Site>
    ghost var ties: Ties

    ghost function View(): Code
      reads this
    {
      Code(f, avail, defs, nextreg, cur, curhead)
    }

    ghost function Tgt(): Target
      reads this
    {
      Target(checked, endbb, aberrorbb, None)
    }

    /** in >> c: skip white space, then take one character. */
    method Extract() returns (eof: bool, c: char)
      requires pos <= |input|
      modifies `pos
      ensures old(pos) <= pos <= |input|
      ensures eof ==> pos == |input| && forall x :: old(pos) <= x < |input| ==> !IsCommand(input[x])
      ensures !eof ==> old(pos) < pos && c == input[pos - 1] && forall x :: old(pos) <= x < pos - 1 ==> !IsCommand(input[x])
    {
      while pos < |input| && IsSpace(input[pos])
        invariant old(pos) <= pos <= |input|
        invariant forall x :: old(pos) <= x < pos ==> !IsCommand(input[x])
      {
        pos := pos + 1;
      }
      if pos == |input| {
        return true, '\0';
      }
      c := input[pos];
      pos := pos + 1;
      eof := false;
    }

    /** The reading half of the loop: from the symbol read ahead, if any, to the next symbol and its value. */
    method Lex(cursym0: Symbol, curvalue0: int, ghost at: nat)
      returns (cursym: Symbol, curvalue: int, nextsym: Symbol, nextvalue: int)
      requires pos <= |input|
      requires (cursym0 == NONE && pos == at) || ReadAhead(input, at, cursym0, curvalue0, pos)
      modifies `pos
      ensures Lexed(input, at, cursym, curvalue, nextsym, nextvalue, pos)
      ensures old(pos) <= pos <= |input| && cursym != NONE
    {
      cursym, curvalue, nextsym, nextvalue := cursym0, curvalue0, NONE, 0;
      if cursym != NONE { ReadAheadIsNext(input, at, cursym, curvalue, pos); }
      var loop := cursym == NONE || cursym == MOVE || cursym == CHANGE;
      while loop
        invariant old(pos) <= pos <= |input|
        invariant loop ==> nextsym == NONE && HalfLexed(input, at, cursym, curvalue, pos)
        invariant !loop ==> Lexed(input, at, cursym, curvalue, nextsym, nextvalue, pos)
        decreases loop, |input| - pos
      {
        cursym, curvalue, nextsym, nextvalue, loop := LexChar(cursym, curvalue, nextvalue, at);
      }
    }

    /** One turn of the reading loop. */
    method LexChar(cursym0: Symbol, curvalue0: int, nextvalue0: int, ghost at: nat)
      returns (cursym: Symbol, curvalue: int, nextsym: Symbol, nextvalue: int, loop: bool)
      requires pos <= |input| && HalfLexed(input, at, cursym0, curvalue0, pos)
      modifies `pos
      ensures old(pos) <= pos <= |input|
      ensures loop ==> old(pos) < pos && nextsym == NONE && HalfLexed(input, at, cursym, curvalue, pos)
      ensures !loop ==> Lexed(input, at, cursym, curvalue, nextsym, nextvalue, pos)
    {
      hide Skip, RunEnd, Net, HalfLexed, Lexed;
      ghost var p0 := pos;
      var eof, c := Extract();
      if eof {
        HalfLexedOver(input, at, cursym0, curvalue0, p0, |input|);
        HalfLexedEnd(input, at, cursym0, curvalue0, nextvalue0);
        cursym, curvalue, nextsym, nextvalue, loop := cursym0, curvalue0, NONE, nextvalue0, false;
        if cursym == NONE { cursym := EOF; } else { nextsym := EOF; }
      } else {
        HalfLexedOver(input, at, cursym0, curvalue0, p0, pos - 1);
        AfterCharLexed(input, at, cursym0, curvalue0, nextvalue0, pos - 1);
        cursym, curvalue, nextsym, nextvalue, loop := Classify(c, cursym0, curvalue0, nextvalue0);
      }
    }

    /** The switch on one character. */
    method Classify(c: char, cursym0: Symbol, curvalue0: int, nextvalue0: int)
      returns (cursym: Symbol, curvalue: int, nextsym: Symbol, nextvalue: int, loop: bool)
      ensures Lexeme(cursym, curvalue, nextsym, nextvalue, loop) == AfterChar(c, cursym0, curvalue0, nextvalue0)
    {
      cursym, curvalue, nextsym, nextvalue, loop := cursym0, curvalue0, NONE, nextvalue0, true;
      var direction := if c == '-' || c == '<' then -1 else 1;
      match c {
        case '-' | '+' =>
          if cursym == CHANGE {
            curvalue := curvalue + direction;
          } else if cursym == NONE {
            cursym, curvalue := CHANGE, direction;
          } else {
            nextsym, nextvalue, loop := CHANGE, direction, false;
          }
        case '<' | '>' =>
          if cursym == MOVE {
            curvalue := curvalue + direction;
          } else if cursym == NONE {
            cursym, curvalue := MOVE, direction;
          } else {
            nextsym, nextvalue, loop := MOVE, direction, false;
          }
        case ',' =>
          if cursym == NONE { cursym := READ; } else { nextsym := READ; }
          loop := false;
        case '.' =>
          if cursym == NONE { cursym := WRITE; } else { nextsym := WRITE; }
          loop := false;
        case '[' =>
          if cursym == NONE { cursym := LOOP; } else { nextsym := LOOP; }
          loop := false;
        case ']' =>
          if cursym == NONE { cursym := ENDLOOP; } else { nextsym := ENDLOOP; }
          loop := false;
        case _ =>
      }
    }

    // ----- The builder -----

    /** Append an instruction at the insertion point; it gets the next register number. */
    method Insert(i: Instr)
      requires cur < |f|
      modifies `f, `nextreg, `defs
      ensures View() == Put(old(View()), i)
    {
      defs := defs[nextreg := InstrSite(cur, |f[cur].instrs|)];
      f := f[cur := f[cur].(instrs := f[cur].instrs + [i])];
      nextreg := nextreg + 1;
    }

    method InsertAt(b: nat, i: Instr)
      requires b < |f|
      modifies `f, `nextreg, `defs
      ensures View() == PutAt(old(View()), b, i)
    {
      defs := defs[nextreg := InstrSite(b, |f[b].instrs|)];
      f := f[b := f[b].(instrs := f[b].instrs + [i])];
      nextreg := nextreg + 1;
    }

    /** A new empty block; av are the registers that will be defined whenever it is entered. */
    method CreateBlock(ghost av: set<Reg>) returns (b: nat)
      modifies `f, `avail
      ensures View() == NewBlock(old(View()), av) && b == old(|f|)
    {
      b := |f|;
      f := f + [Block([], [], None)];
      avail := avail + [av];
    }

    method CreateTerm(b: nat, t: Term)
      requires b < |f|
      modifies `f
      ensures View() == old(View()).(f := Terminate(old(f), b, t))
    {
      f := f[b := f[b].(term := Some(t))];
    }

    method CreatePhi(b: nat, val: Reg, from: nat) returns (phi: Reg)
      requires b < |f| && f[b].phis == []
      modifies `f, `nextreg, `defs
      ensures View() == old(View()).(f := AddPhi(old(f), b, Phi(old(nextreg), [Incoming(val, from)])),
                                     defs := old(defs)[old(nextreg) := PhiSite(b, 0)], next := old(nextreg) + 1)
      ensures phi == old(nextreg)
    {
      phi := nextreg;
      f := f[b := f[b].(phis := [Phi(phi, [Incoming(val, from)])])];
      defs := defs[phi := PhiSite(b, 0)];
      nextreg := nextreg + 1;
      assert [] + [Phi(phi, [Incoming(val, from)])] == [Phi(phi, [Incoming(val, from)])];
    }

    // ----- Code for one command -----

    method WriteRead()
      requires cur < |f|
      modifies `f, `nextreg, `defs
      ensures View() == EmitRead(old(View()))
    {
      var tape_0 := nextreg;
      Insert(Getchar(tape_0));
      var tape_1 := nextreg;
      Insert(Trunc8(tape_1, tape_0));
      Insert(Store(tape_1, curhead));
    }

    method WriteWrite()
      requires cur < |f|
      modifies `f, `nextreg, `defs
      ensures View() == EmitWrite(old(View()))
    {
      var tape_0 := nextreg;
      Insert(Load(tape_0, curhead));
      var tape_1 := nextreg;
      Insert(SExt32(tape_1, tape_0));
      Insert(Putchar(tape_1));
    }

    method WriteChange(curvalue: int)
      requires cur < |f|
      modifies `f, `nextreg, `defs
      ensures View() == EmitChange(old(View()), curvalue)
    {
      var tape_0 := nextreg;
      Insert(Load(tape_0, curhead));
      var tape_1 := nextreg;
      Insert(AddConst8(tape_1, tape_0, curvalue));
      Insert(Store(tape_1, curhead));
    }

    method WriteMove(curvalue: int)
      requires cur < |f|
      modifies `f, `nextreg, `defs, `avail, `cur, `curhead
      ensures View() == EmitMove(Tgt(), old(View()), curvalue)
    {
      var head := nextreg;
      Insert(Gep(head, curhead, curvalue));
      curhead := head;
      if checked {
        var test_0 := nextreg;
        Insert(IcmpUge(test_0, curhead, ARRMAX));
        var test_1 := nextreg;
        Insert(IcmpUlt(test_1, curhead, ARR));
        var test_2 := nextreg;
        Insert(Or1(test_2, test_0, test_1));
        var nextbb := CreateBlock(TapeRegs(Tgt()) + {curhead});
        CreateTerm(cur, CondBr(test_2, aberrorbb, nextbb));
        cur := nextbb;
      }
    }

    method WriteLoopStart() returns (phi_0: Reg, bb_1: nat, testbb: nat)
      requires cur < |f|
      modifies `f, `nextreg, `defs, `avail, `cur, `curhead
      ensures View() == BeginLoop(Tgt(), old(View()))
      ensures testbb == old(|f|) && bb_1 == cur && phi_0 == curhead
    {
      testbb := CreateBlock(TapeRegs(Tgt()));
      CreateTerm(cur, Br(testbb));
      var bb_0 := cur;
      bb_1 := CreateBlock(TapeRegs(Tgt()) + {nextreg});
      cur := bb_1;
      phi_0 := CreatePhi(testbb, curhead, bb_0);
      curhead := phi_0;
    }

    method WriteLoopTest(testbb: nat, oldbb: nat)
      requires cur < |f| && testbb < |f| && testbb != cur && |f[testbb].phis| == 1
      modifies `f, `nextreg, `defs, `avail, `cur, `curhead
      ensures View() == EndLoop(Tgt(), old(View()), testbb, oldbb)
    {
      CreateTerm(cur, Br(testbb));
      var head_0 := f[testbb].phis[0].dst;
      f := f[testbb := f[testbb].(phis := [Phi(head_0, f[testbb].phis[0].incoming + [Incoming(curhead, cur)])])];
      var tape_0 := nextreg;
      InsertAt(testbb, Load(tape_0, head_0));
      var test_0 := nextreg;
      InsertAt(testbb, IcmpEqZero(test_0, tape_0));
      var bb_0 := CreateBlock(TapeRegs(Tgt()) + {head_0});
      CreateTerm(testbb, CondBr(test_0, bb_0, oldbb));
      cur := bb_0;
      curhead := CreatePhi(bb_0, head_0, testbb);
    }

    // ----- The recursive reader -----

    /** Between two commands: text up to at is code, and the symbol in hand is the next one. */
    ghost predicate Reading(open: set<nat>, pend: set<nat>, start: nat, at: nat)
      reads this
    {
      && Track(input, Tgt(), View(), ties, open, pend, at)
      && Level(input, start, at) && pos <= |input| && start <= at
      && forall x {:trigger x in open} :: x in open ==> x < start
    }

    /** Write out one run or input/output command. */
    method WriteCommand(cursym: Symbol, curvalue: int, nextsym: Symbol, nextvalue: int,
                        ghost open: set<nat>, ghost pend: set<nat>, ghost start: nat, ghost at: nat)
      returns (ghost e: nat)
      requires Reading(open, pend, start, at)
      requires Lexed(input, at, cursym, curvalue, nextsym, nextvalue, pos)
      requires cursym in {READ, WRITE, MOVE, CHANGE}
      modifies `f, `nextreg, `defs, `avail, `cur, `curhead, `ties
      ensures at < e <= |input| && Reading(open, pend, start, e)
      ensures if IsRun(cursym) then ReadAhead(input, e, nextsym, nextvalue, pos) else nextsym == NONE && pos == e
      ensures Framed(old(View()), old(ties), View(), ties, {})
    {
      hide Track, Framed, Level, Lexed, ReadAhead, EmitRead, EmitWrite, EmitChange, EmitMove, EndOf, Skip;
      TrackCommand(input, Tgt(), View(), ties, open, pend, at, cursym, curvalue, nextsym, nextvalue, pos);
      CommandFlat(input, start, at, cursym, curvalue, nextsym, nextvalue, pos);
      e := EndOf(input, at, cursym);
      match cursym {
        case READ => WriteRead();
        case WRITE => WriteWrite();
        case MOVE => WriteMove(curvalue);
        case CHANGE => WriteChange(curvalue);
      }
      ties := ties[e := HereOrOrigin(View())];
    }

    /** Write out a loop: open it, read its body, which closes it. False when the text ends first. */
    method WriteLoop(ghost open: set<nat>, ghost pend: set<nat>, ghost start: nat, ghost at: nat) returns (ok: bool)
      requires Reading(open, pend, start, at)
      requires Skip(input, at) < |input| && input[Skip(input, at)] == '[' && pos == Skip(input, at) + 1
      modifies this
      ensures Tgt() == old(Tgt()) && old(pos) <= pos <= |input|
      ensures ok ==> at < pos && Reading(open, pend, start, pos) && Framed(old(View()), old(ties), View(), ties, {})
      ensures !ok ==> Bal(input, start, |input|) > 0
      decreases |input| - pos, 1
    {
      hide Track, Framed, InLoop, BeginLoop, Level;
      ghost var k := Skip(input, at);
      ghost var s, S := View(), ties;
      TrackLoop(input, Tgt(), s, S, open, pend, at);
      var phi_0, bb_1, testbb := WriteLoopStart();
      ties := ties[pos := HereOrOrigin(View())];
      LevelFlat(input, start, at, k);
      ok := ReadLoop(Some(phi_0), bb_1, testbb, open + {at}, pend + {testbb});
      if ok {
        AfterLoop(input, Tgt(), s, S, open, pend, at, View(), ties, pos);
        LevelLoop(input, start, k, pos - 1);
      } else {
        BalSplit(input, start, k + 1, |input|);
      }
    }

    /** Write out any command: the switch. False when a loop is not closed before the text ends. */
    method WriteSymbol(cursym: Symbol, curvalue: int, nextsym: Symbol, nextvalue: int, ghost open: set<nat>,
                       ghost pend: set<nat>, ghost start: nat, ghost at: nat, ghost s0: Code, ghost S0: Ties)
      returns (ok: bool, ghost e: nat)
      requires Reading(open, pend, start, at) && Framed(s0, S0, View(), ties, {})
      requires Lexed(input, at, cursym, curvalue, nextsym, nextvalue, pos) && cursym !in {NONE, EOF, ENDLOOP}
      modifies this
      ensures Tgt() == old(Tgt()) && old(pos) <= pos <= |input|
      ensures ok ==> at < e && Reading(open, pend, start, e) && Framed(s0, S0, View(), ties, {})
      ensures ok ==> (nextsym == NONE && pos == e) || ReadAhead(input, e, nextsym, nextvalue, pos)
      ensures !ok ==> Bal(input, start, |input|) > 0
      decreases |input| - pos, 2
    {
      hide Track, Framed, Level, Bal, Skip, RunEnd, Net, ReadAhead;
      ghost var s1, S1 := View(), ties;
      e := at;
      if cursym == LOOP {
        ok := WriteLoop(open, pend, start, at);
        e := pos;
      } else {
        e := WriteCommand(cursym, curvalue, nextsym, nextvalue, open, pend, start, at);
        ok := true;
      }
      if ok { FramedTrans(s0, S0, s1, S1, View(), ties, {}, {}); }
    }

    /** Read and compile up to the end of the enclosing loop (phi given) or of the text. The result is false
        where the original aborts. */
    method ReadLoop(phi: Option<Reg>, oldbb: nat, testbb: nat, ghost open: set<nat>, ghost pend: set<nat>)
      returns (ok: bool)
      requires pos <= |input| && Track(input, Tgt(), View(), ties, open, pend, pos)
      requires forall x {:trigger x in open} :: x in open ==> x < pos
      requires phi.Some? ==> testbb in pend && InLoop(input, Tgt(), View(), ties, pos, phi.value, testbb, oldbb)
      modifies this
      ensures Tgt() == old(Tgt()) && old(pos) <= pos <= |input|
      ensures ok && phi.Some? ==>
        && Track(input, Tgt(), View(), ties, open, pend - {testbb}, pos)
        && Framed(old(View()), old(ties), View(), ties, {testbb})
        && LoopDone(input, old(View()), View(), ties, old(pos), pos, testbb)
      ensures ok && phi.None? ==>
        && Level(input, old(pos), |input|)
        && Complete(input, Tgt().(final := Some(curhead)), View(), ties, open, pend)
        && Framed(old(View()), old(ties), View(), ties, {})
      ensures !ok && phi.Some? ==> Bal(input, old(pos), |input|) >= 0
      ensures !ok && phi.None? ==> !Level(input, old(pos), |input|)
      decreases |input| - pos, 0
    {
      hide Track, Framed, Level, EndLoop, InLoop, LoopDone, Complete, Bal, Skip, RunEnd, Net, HalfLexed;
      ghost var start, s0, S0 := pos, View(), ties;
      ghost var at := pos;
      var cursym, curvalue, nextsym, nextvalue := NONE, 0, NONE, 0;
      LevelStart(input, start);
      FramedRefl(s0, S0);

      while cursym != EOF && cursym != ENDLOOP
        invariant Tgt() == old(Tgt()) && Reading(open, pend, start, at) && start <= pos
        invariant Framed(s0, S0, View(), ties, {})
        invariant if cursym == NONE then pos == at && nextsym == NONE
                  else Lexed(input, at, cursym, curvalue, nextsym, nextvalue, pos)
        decreases |input| - at, cursym == NONE
      {
        if cursym != NONE {
          ok, at := WriteSymbol(cursym, curvalue, nextsym, nextvalue, open, pend, start, at, s0, S0);
          if !ok {
            MissingClose(input, start);
            return;
          }
        }

        cursym, curvalue, nextsym, nextvalue := Lex(nextsym, nextvalue, at);
      }

      if cursym == ENDLOOP {
        LevelFlat(input, start, at, Skip(input, at));
        if phi.None? {
          // There is no loop to close
          ExtraClose(input, start, Skip(input, at));
          return false;
        }
        FinishLoop(input, Tgt(), s0, S0, View(), ties, open, pend, start, at, phi.value, testbb, oldbb);
        WriteLoopTest(testbb, oldbb);
        ties := ties[pos := HereOrOrigin(View())];
        return true;
      }

      // The text is over: from here the code returns, unless a loop is still open
      LevelFlat(input, start, at, |input|);
      TrackOpen(input, Tgt(), View(), ties, open, pend, at);
      if phi.None? {
        TrackFinish(input, Tgt(), View(), ties, open, pend, at);
        FinishFramed(Tgt(), s0, S0, View(), ties);
      }
      CreateTerm(cur, Br(endbb));
      ok := phi.None?;
    }

    // ----- The whole compilation -----

    constructor (in1: string, mem: nat, bounds: bool)
      ensures input == in1 && memtotal == mem && checked == bounds && pos == 0
    {
      input, memtotal, checked := in1, mem, bounds;
      pos, f, cur, curhead, nextreg, endbb, aberrorbb := 0, [], 0, 0, 0, 1, 2;
      avail, defs, ties := [], map[], map[];
    }

    method HeaderBlock()
      modifies this
      ensures Tgt() == old(Tgt()) && pos == old(pos)
      ensures View() == HeaderEntry(Tgt(), memtotal)
    {
      f, cur, curhead, nextreg, avail, defs := [Block([], [], None)], 0, 0, 0, [{}], map[];
      Insert(Malloc(0, memtotal));
      Insert(Memset0(ARR, memtotal));
      if checked {
        Insert(Gep(2, ARR, memtotal));
      } else {
        nextreg := 3;
      }
      Insert(Gep(3, ARR, memtotal / 2));
      curhead := 3;
    }

    method Header()
      modifies this
      ensures endbb == 1 && aberrorbb == 2 && pos == old(pos)
      ensures View() == HeaderCode(Tgt(), memtotal)
    {
      HeaderBlock();
      endbb, aberrorbb := 1, 2;
      HeaderEntryGood(Tgt(), memtotal);
      WriteFooter();
      if checked { WriteAbort(); }
    }

    /** The block in which every run ends, where the tape is given back. */
    method WriteFooter()
      requires |f| == 1 && endbb == 1
      modifies `f, `avail, `nextreg, `defs
      ensures View() == HeaderEnd(old(View()))
    {
      var bb := CreateBlock({ARR});
      InsertAt(bb, Free(ARR));
      CreateTerm(bb, Ret);
    }

    /** The block that prints the message for a head off the tape. */
    method WriteAbort()
      requires |f| == 2 && endbb == 1 && aberrorbb == 2
      modifies `f, `avail, `nextreg, `defs
      ensures View() == HeaderAbort(old(View()), endbb)
    {
      var bb := CreateBlock({ARR});
      InsertAt(bb, Puts);
      CreateTerm(bb, Br(endbb));
    }

    /** Compile the whole text. It succeeds exactly on balanced texts; the function written is then in SSA form
        and behaves like the text on every input and every memory. In checked mode all its accesses are on the tape,
        unless the tape is empty and a command other than a move comes first. */
    method Parse() returns (ok: bool)
      requires pos == 0
      modifies this
      ensures ok <==> Balanced(input)
      ensures ok ==> SSA(f) && Implements(input, checked, memtotal, f, curhead)
    {
      hide Track, Complete, Level, Framed, HeaderCode, SSA, Implements;
      Header();
      ghost var s, c := View(), Tgt();
      ties := map[0 := HereOrOrigin(s)];
      TrackHeader(input, c, memtotal);
      ok := ReadLoop(None, 0, 0, {}, {});
      if ok {
        HeaderKept(c, memtotal, s, map[0 := HereOrOrigin(s)], View(), ties);
        OutputCorrect(input, c.(final := Some(curhead)), memtotal, View(), ties);
      }
    }
  }
}
