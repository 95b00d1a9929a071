/** What it means for emitted code to stand for source text: some text positions are tied to code points,
    and each tied position satisfies a local condition saying which code its next command became. */
module BrainFSync {
  import opened Options
  import opened BrainFSource
  import opened BrainFIR

  /** The registers holding the start and the end of the tape. */
  const ARR: Reg := 0
  const ARRMAX: Reg := 2

  /** A place in the code together with the register that holds the head there. */
  datatype Point = Point(block: nat, index: nat, head: Reg)

  /** Facts about the whole function: the mode, the two fixed blocks, and, once the end of the text has been
      compiled, the register that holds the head when the program ends. */
  datatype Target = Target(checked: bool, endbb: nat, aberrorbb: nat, final: Option<Reg>)

  predicate Tied(S: map<nat, Point>, x: nat, p: Point) { x in S && S[x] == p }

  // ----- Code patterns -----

  predicate ReadCode(b: seq<Instr>, i: nat, h: Reg) {
    && i + 3 <= |b|
    && b[i].Getchar? && b[i + 1].Trunc8? && b[i + 1].src == b[i].dst && b[i + 2] == Store(b[i + 1].dst, h)
    && h < b[i].dst < b[i + 1].dst && ARRMAX < b[i].dst
  }

  predicate WriteCode(b: seq<Instr>, i: nat, h: Reg) {
    && i + 3 <= |b|
    && b[i].Load? && b[i].ptr == h && b[i + 1].SExt32? && b[i + 1].src == b[i].dst
    && b[i + 2] == Putchar(b[i + 1].dst)
    && h < b[i].dst < b[i + 1].dst && ARRMAX < b[i].dst
  }

  predicate ChangeCode(b: seq<Instr>, i: nat, h: Reg, n: int) {
    && i + 3 <= |b|
    && b[i].Load? && b[i].ptr == h && b[i + 1].AddConst8? && b[i + 1].src == b[i].dst && b[i + 1].n == n
    && b[i + 2] == Store(b[i + 1].dst, h)
    && h < b[i].dst < b[i + 1].dst && ARRMAX < b[i].dst
  }

  predicate MoveCode(b: seq<Instr>, i: nat, h: Reg, n: int) {
    i < |b| && b[i].Gep? && b[i].ptr == h && b[i].n == n && ARRMAX < b[i].dst
  }

  predicate CheckCode(b: seq<Instr>, i: nat, h: Reg) {
    && |b| == i + 3
    && b[i].IcmpUge? && b[i].a == h && b[i].b == ARRMAX
    && b[i + 1].IcmpUlt? && b[i + 1].a == h && b[i + 1].b == ARR
    && b[i + 2].Or1? && b[i + 2].a == b[i].dst && b[i + 2].b == b[i + 1].dst
    && h < b[i].dst < b[i + 1].dst < b[i + 2].dst && ARRMAX < b[i].dst
  }

  /** The block of p ends at p with a branch to the fixed end block. */
  predicate EndsHere(f: Func, p: Point, target: nat) {
    p.block < |f| && p.index == |f[p.block].instrs| && f[p.block].term == Some(Br(target))
  }

  /** Control at p tests the cell under the head: zero leads to exit, anything else to body. */
  predicate TestCode(f: Func, p: Point, body: Point, exit: Point) {
    && p.block < |f| && p.index == |f[p.block].instrs|
    && f[p.block].term.Some? && f[p.block].term.value.Br?
    && var t := f[p.block].term.value.target;
    && t < |f| && TestBlock(f, t, body, exit)
    && Pick(f[t].phis[0].incoming, p.block) == Some(p.head)
  }

  /** t is a finished loop-test block between body and exit. */
  predicate TestBlock(f: Func, t: nat, body: Point, exit: Point)
    requires t < |f|
  {
    && |f[t].phis| == 1 && |f[t].instrs| == 2
    && var h := f[t].phis[0].dst;
    && ARRMAX < h && body == Point(body.block, 0, h) && exit == Point(exit.block, 0, exit.head)
    && f[t].instrs[0].Load? && f[t].instrs[0].ptr == h && h < f[t].instrs[0].dst
    && f[t].instrs[1].IcmpEqZero? && f[t].instrs[1].a == f[t].instrs[0].dst && h < f[t].instrs[1].dst
    && f[t].term == Some(CondBr(f[t].instrs[1].dst, exit.block, body.block))
    && body.block < |f| && f[body.block].phis == []
    && exit.block < |f| && f[exit.block].phis == [Phi(exit.head, [Incoming(h, t)])] && ARRMAX < exit.head
  }

  /** In checked mode a head that has moved is tested; the code goes on in a fresh block. */
  predicate GuardedMove(f: Func, c: Target, p: Point, n: int, q: Point)
    requires p.block < |f|
  {
    && MoveCode(f[p.block].instrs, p.index, p.head, n)
    && q.head == f[p.block].instrs[p.index].dst
    && if c.checked then
         && CheckCode(f[p.block].instrs, p.index + 1, q.head)
         && f[p.block].term == Some(CondBr(f[p.block].instrs[p.index + 3].dst, c.aberrorbb, q.block))
         && q.block < |f| && f[q.block].phis == [] && q.index == 0
       else q == Point(p.block, p.index + 1, q.head)
  }

  /** The code tied to position x does what the text from x on says next. */
  predicate SyncedAt(t: string, c: Target, f: Func, S: map<nat, Point>, x: nat) {
    && x in S && x <= |t|
    && var p := S[x]; var k := Skip(t, x);
    && p.block < |f|
    && var b := f[p.block].instrs;
    if k == |t| then c.final == Some(p.head) && EndsHere(f, p, c.endbb)
    else if t[k] == ',' then
      ReadCode(b, p.index, p.head) && Tied(S, k + 1, Point(p.block, p.index + 3, p.head))
    else if t[k] == '.' then
      WriteCode(b, p.index, p.head) && Tied(S, k + 1, Point(p.block, p.index + 3, p.head))
    else if IsChange(t[k]) then
      var e := RunEnd(t, k, false);
      ChangeCode(b, p.index, p.head, Net(t, k, e)) && Tied(S, e, Point(p.block, p.index + 3, p.head))
    else if IsMove(t[k]) then
      var e := RunEnd(t, k, true);
      e in S && GuardedMove(f, c, p, Net(t, k, e), S[e])
    else if t[k] == '[' then
      var m := Close(t, k + 1, 0);
      k + 1 in S && m + 1 in S && TestCode(f, p, S[k + 1], S[m + 1])
    else
      var o := Open(t, k, 0);
      k + 1 in S && o + 1 in S && o < k && t[o] == '[' && Close(t, o + 1, 0) == k && TestCode(f, p, S[o + 1], S[k + 1])
  }

  /** The fixed blocks written before any code. */
  predicate Footer(c: Target, f: Func) {
    && c.endbb < |f| && f[c.endbb] == Block([], [Free(ARR)], Some(Ret))
    && (c.checked ==> c.aberrorbb < |f| && f[c.aberrorbb] == Block([], [Puts], Some(Br(c.endbb))))
  }

  // ----- Growth -----

  /** One block has at most been added to. */
  predicate BlockGrows(o: Block, n: Block) {
    && n.phis == o.phis && o.instrs <= n.instrs
    && (o.term.Some? ==> n == o)
  }

  /** Code has been added but nothing taken back. */
  predicate Grows(o: Func, n: Func) {
    && |o| <= |n|
    && forall b {:trigger BlockGrows(o[b], n[b])} :: 0 <= b < |o| ==> BlockGrows(o[b], n[b])
  }

  predicate TiesGrow(S: map<nat, Point>, S': map<nat, Point>) {
    forall x :: x in S ==> x in S' && S'[x] == S[x]
  }

  lemma GrowsTrans(a: Func, b: Func, c: Func)
    requires Grows(a, b) && Grows(b, c)
    ensures Grows(a, c)
  {
    forall x | 0 <= x < |a| ensures BlockGrows(a[x], c[x]) {
      assert BlockGrows(a[x], b[x]) && BlockGrows(b[x], c[x]);
    }
  }

  lemma GrownTest(o: Func, n: Func, p: Point, body: Point, exit: Point)
    requires Grows(o, n) && TestCode(o, p, body, exit)
    ensures TestCode(n, p, body, exit)
  {
    assert BlockGrows(o[p.block], n[p.block]);
    var t := o[p.block].term.value.target;
    assert BlockGrows(o[t], n[t]);
    assert BlockGrows(o[body.block], n[body.block]);
    assert BlockGrows(o[exit.block], n[exit.block]);
  }

  lemma GrownMove(c: Target, o: Func, n: Func, p: Point, k: int, q: Point)
    requires Grows(o, n) && p.block < |o| && GuardedMove(o, c, p, k, q)
    ensures GuardedMove(n, c, p, k, q)
  {
    assert BlockGrows(o[p.block], n[p.block]);
    if c.checked {
      assert BlockGrows(o[q.block], n[q.block]);
    }
  }

  /** Adding code and ties never breaks a position that was already in order. */
  lemma GrowsKeepsSync(t: string, c: Target, o: Func, n: Func, S: map<nat, Point>, S': map<nat, Point>, x: nat)
    requires SyncedAt(t, c, o, S, x) && Grows(o, n) && TiesGrow(S, S')
    ensures SyncedAt(t, c, n, S', x)
  {
    var p := S[x];
    var k := Skip(t, x);
    assert BlockGrows(o[p.block], n[p.block]);
    if k < |t| {
      if t[k] == '[' {
        GrownTest(o, n, p, S[k + 1], S[Close(t, k + 1, 0) + 1]);
      } else if t[k] == ']' {
        GrownTest(o, n, p, S[Open(t, k, 0) + 1], S[k + 1]);
      } else if IsMove(t[k]) {
        GrownMove(c, o, n, p, Net(t, k, RunEnd(t, k, true)), S[RunEnd(t, k, true)]);
      }
    }
  }

  /** All blocks outside ts have at most been added to. */
  ghost predicate GrowsBut(o: Func, n: Func, ts: set<nat>) {
    |o| <= |n| && forall b {:trigger BlockGrows(o[b], n[b])} :: 0 <= b < |o| && b !in ts ==> BlockGrows(o[b], n[b])
  }

  ghost predicate NoTieIn(S: map<nat, Point>, b: nat) {
    forall x {:trigger S[x]} :: x in S ==> S[x].block != b
  }

  lemma GrownTestBut(o: Func, n: Func, p: Point, body: Point, exit: Point, t: nat)
    requires GrowsBut(o, n, {t}) && t < |o| && o[t].instrs == [] && TestCode(o, p, body, exit)
    requires p.block != t && body.block != t && exit.block != t
    ensures TestCode(n, p, body, exit)
  {
    assert BlockGrows(o[p.block], n[p.block]);
    var u := o[p.block].term.value.target;
    assert BlockGrows(o[u], n[u]);
    assert BlockGrows(o[body.block], n[body.block]);
    assert BlockGrows(o[exit.block], n[exit.block]);
  }

  /** Finishing a test block that nothing is tied to breaks no position that was in order. */
  lemma GrowsButKeepsSync(t: string, c: Target, o: Func, n: Func, S: map<nat, Point>, S': map<nat, Point>, x: nat, b: nat)
    requires SyncedAt(t, c, o, S, x) && GrowsBut(o, n, {b}) && TiesGrow(S, S')
    requires b < |o| && o[b].instrs == [] && NoTieIn(S, b)
    ensures SyncedAt(t, c, n, S', x)
  {
    var p := S[x];
    var k := Skip(t, x);
    assert BlockGrows(o[p.block], n[p.block]);
    if k < |t| {
      if t[k] == '[' {
        GrownTestBut(o, n, p, S[k + 1], S[Close(t, k + 1, 0) + 1], b);
      } else if t[k] == ']' {
        GrownTestBut(o, n, p, S[Open(t, k, 0) + 1], S[k + 1], b);
      } else if IsMove(t[k]) {
        var q := S[RunEnd(t, k, true)];
        if c.checked { assert BlockGrows(o[q.block], n[q.block]); }
      }
    }
  }
}
