/** The invariant that ties the code built so far to the text read so far, and the steps that keep it. */
module BrainFTrack {
  import opened Options
  import opened BrainFSource
  import opened BrainFIR
  import opened BrainFSync
  import opened BrainFWellFormed
  import opened BrainFBuilder

  type Ties = map<nat, Point>

  function Here(s: Code): Point
    requires s.cur < |s.f|
  {
    Point(s.cur, |s.f[s.cur].instrs|, s.head)
  }

  /** The same for any value. */
  function HereOrOrigin(s: Code): Point { if s.cur < |s.f| then Here(s) else Point(0, 0, 0) }

  /** Every tied position is in order, except where code is being added (at) and where loops that are still
      open began (open). */
  ghost predicate InOrder(t: string, c: Target, f: Func, S: Ties, open: set<nat>, at: nat) {
    forall x {:trigger SyncedAt(t, c, f, S, x)} :: x in S && x !in open && x != at ==> SyncedAt(t, c, f, S, x)
  }

  /** The state between two groups: text up to at has become code; pend are the test blocks of open loops. */
  ghost predicate Track(t: string, c: Target, s: Code, S: Ties, open: set<nat>, pend: set<nat>, at: nat) {
    && c.final.None? && Good(c, s) && at <= |t|
    && Tied(S, at, Here(s))
    && (forall x {:trigger x in S} :: x in S ==> x <= at && S[x].block < |s.f|)
    && InOrder(t, c, s.f, S, open, at)
    && (forall b {:trigger s.f[b]} :: 0 <= b < |s.f| && s.f[b].term.None? ==> b == s.cur || b in pend)
  }

  /** From s0 on, code was added at s0.cur and in new blocks only, except for the blocks in ts. */
  ghost predicate Framed(s0: Code, S0: Ties, s1: Code, S1: Ties, ts: set<nat>) {
    && GrowsBut(s0.f, s1.f, ts)
    && (forall b {:trigger s1.f[b]} :: 0 <= b < |s0.f| && b != s0.cur && b !in ts ==> s1.f[b] == s0.f[b])
    && s0.avail <= s1.avail && s0.next <= s1.next
    && TiesGrow(S0, S1)
    && (forall x {:trigger S1[x]} :: x in S1 && x !in S0 ==> S1[x].block == s0.cur || S1[x].block >= |s0.f|)
    && (s1.cur == s0.cur || s1.cur >= |s0.f|)
  }

  lemma FramedRefl(s: Code, S: Ties)
    ensures Framed(s, S, s, S, {})
  {
  }

  lemma FramedTrans(a: Code, A: Ties, b: Code, B: Ties, c: Code, C: Ties, ys: set<nat>, zs: set<nat>)
    requires Framed(a, A, b, B, {}) && Framed(b, B, c, C, ys)
    requires forall y :: y in ys ==> y >= |a.f| || y in zs
    ensures Framed(a, A, c, C, zs)
  {
    forall x | 0 <= x < |a.f| && x !in zs ensures BlockGrows(a.f[x], c.f[x]) {
      assert BlockGrows(a.f[x], b.f[x]) && BlockGrows(b.f[x], c.f[x]);
    }
    forall x | 0 <= x < |a.f| && x != a.cur && x !in zs ensures c.f[x] == a.f[x] {
      assert b.f[x] == a.f[x];
      assert c.f[x] == b.f[x];
    }
  }

  /** Positions in order stay so when code and one tie beyond them are added. */
  lemma InOrderGrows(t: string, c: Target, f: Func, S: Ties, open: set<nat>, at: nat, f': Func, S': Ties, at': nat)
    requires InOrder(t, c, f, S, open, at) && Grows(f, f') && TiesGrow(S, S')
    requires forall x {:trigger x in S'} :: x in S' ==> x in S || x == at'
    requires at !in open ==> SyncedAt(t, c, f', S', at)
    ensures InOrder(t, c, f', S', open, at')
  {
    forall x | x in S' && x !in open && x != at' ensures SyncedAt(t, c, f', S', x) {
      if x != at {
        assert SyncedAt(t, c, f, S, x);
        GrowsKeepsSync(t, c, f, f', S, S', x);
      }
    }
  }

  /** A straight-line group: the text from at to e has become the code from Here(s) to Here(s'). */
  lemma TrackStep(t: string, c: Target, s: Code, S: Ties, open: set<nat>, pend: set<nat>, at: nat, s': Code, e: nat)
    requires Track(t, c, s, S, open, pend, at)
    requires Good(c, s') && Extends(s, s') && at < e <= |t|
    requires (|s'.f| == |s.f| && s'.cur == s.cur) || (|s'.f| == |s.f| + 1 && s'.cur == |s.f| && s'.f[s.cur].term.Some?)
    requires SyncedAt(t, c, s'.f, S[e := Here(s')], at)
    ensures Track(t, c, s', S[e := Here(s')], open, pend, e)
    ensures Framed(s, S, s', S[e := Here(s')], {})
  {
    hide WF, Footer, SyncedAt;
    InOrderGrows(t, c, s.f, S, open, at, s'.f, S[e := Here(s')], e);
    forall b | 0 <= b < |s.f| ensures BlockGrows(s.f[b], s'.f[b]) {
    }
  }

  /** A loop is opened: its bracket's position joins the open ones. */
  lemma TrackBegin(t: string, c: Target, s: Code, S: Ties, open: set<nat>, pend: set<nat>, at: nat)
    requires Track(t, c, s, S, open, pend, at)
    requires Skip(t, at) < |t|
    ensures var s' := BeginLoop(c, s); var e := Skip(t, at) + 1; var S' := S[e := Here(s')];
            && Track(t, c, s', S', open + {at}, pend + {|s.f|}, e)
            && Framed(s, S, s', S', {}) && OpenLoop(c, s', |s.f|, s'.cur) && NoTieIn(S', |s.f|)
            && s'.f[s'.cur] == EMPTY_BLOCK
            && s'.f[s.cur] == s.f[s.cur].(term := Some(Br(|s.f|)))
            && s'.f[|s.f|].phis[0] == Phi(s'.head, [Incoming(s.head, s.cur)])
            && S' == S[e := HereOrOrigin(s')]
  {
    var s' := BeginLoop(c, s);
    var e := Skip(t, at) + 1;
    BeginLoopGood(c, s);
    InOrderWiden(t, c, s.f, S, open, at);
    InOrderGrows(t, c, s.f, S, open + {at}, at, s'.f, S[e := Here(s')], e);
    forall b | 0 <= b < |s.f| ensures BlockGrows(s.f[b], s'.f[b]) {
    }
  }

  lemma InOrderWiden(t: string, c: Target, f: Func, S: Ties, open: set<nat>, at: nat)
    requires InOrder(t, c, f, S, open, at)
    ensures InOrder(t, c, f, S, open + {at}, at)
  {
  }

  lemma PickSecond(inc: seq<Incoming>, p: nat)
    requires |inc| == 2 && inc[0].from != p && inc[1].from == p
    ensures Pick(inc, p) == Some(inc[1].val)
  {
    assert inc[1..] == [inc[1]];
  }

  /** What closing a loop leaves for the block that entered it and for the closing bracket itself. */
  ghost predicate ClosedLoop(s: Code, s': Code, test: nat, body: nat)
  {
    && test < |s.f| && |s.f[test].phis| == 1 && |s.f[test].phis[0].incoming| == 1 && test < |s'.f|
    && TestBlock(s'.f, test, Point(body, 0, s.f[test].phis[0].dst), HereOrOrigin(s'))
    && |s'.f[test].phis| == 1 && |s'.f[test].phis[0].incoming| == 2
    && s'.f[test].phis[0].incoming[0] == s.f[test].phis[0].incoming[0]
  }

  lemma CloseTest(c: Target, s: Code, test: nat, body: nat)
    requires Good(c, s) && OpenLoop(c, s, test, body)
    ensures var s' := EndLoop(c, s, test, body);
            && Good(c, s') && ClosedLoop(s, s', test, body)
            && TestCode(s'.f, Here(s), Point(body, 0, s.f[test].phis[0].dst), Here(s'))
  {
    EndLoopGood(c, s, test, body);
    var s' := EndLoop(c, s, test, body);
    PickSecond(s'.f[test].phis[0].incoming, s.cur);
  }

  /** The closing bracket's own position, once the loop is closed. */
  lemma CloseSynced(t: string, c: Target, s: Code, S: Ties, at: nat, start: nat, test: nat, body: nat)
    requires Good(c, s) && OpenLoop(c, s, test, body)
    requires at <= |t| && Tied(S, at, Here(s)) && Skip(t, at) < |t| && t[Skip(t, at)] == ']'
    requires 0 < start <= at && t[start - 1] == '[' && Level(t, start, Skip(t, at))
    requires Tied(S, start, Point(body, 0, s.f[test].phis[0].dst))
    ensures var s' := EndLoop(c, s, test, body);
            SyncedAt(t, c, s'.f, S[Skip(t, at) + 1 := HereOrOrigin(s')], at)
  {
    CloseTest(c, s, test, body);
    BracketsMatch(t, start - 1, Skip(t, at));
  }

  lemma InOrderCloses(t: string, c: Target, f: Func, S: Ties, open: set<nat>, at: nat, f': Func, S': Ties, at': nat, b: nat)
    requires InOrder(t, c, f, S, open, at) && GrowsBut(f, f', {b}) && TiesGrow(S, S')
    requires b < |f| && f[b].instrs == [] && NoTieIn(S, b)
    requires forall x {:trigger x in S'} :: x in S' ==> x in S || x == at'
    requires SyncedAt(t, c, f', S', at)
    ensures InOrder(t, c, f', S', open, at')
  {
    forall x | x in S' && x !in open && x != at' ensures SyncedAt(t, c, f', S', x) {
      if x != at {
        assert SyncedAt(t, c, f, S, x);
        GrowsButKeepsSync(t, c, f, f', S, S', x, b);
      }
    }
  }

  lemma FrameEnd(c: Target, s: Code, S: Ties, test: nat, body: nat, e: nat)
    requires Good(c, s) && OpenLoop(c, s, test, body) && e !in S
    ensures var s' := EndLoop(c, s, test, body);
            Framed(s, S, s', S[e := HereOrOrigin(s')], {test})
  {
    EndLoopGood(c, s, test, body);
  }

  lemma OrderEnd(t: string, c: Target, s: Code, S: Ties, open: set<nat>, at: nat, start: nat, test: nat, body: nat)
    requires Good(c, s) && InOrder(t, c, s.f, S, open, at)
    requires OpenLoop(c, s, test, body) && NoTieIn(S, test)
    requires at <= |t| && Tied(S, at, Here(s)) && Skip(t, at) < |t| && t[Skip(t, at)] == ']' && Skip(t, at) + 1 !in S
    requires 0 < start <= at && t[start - 1] == '[' && Level(t, start, Skip(t, at))
    requires Tied(S, start, Point(body, 0, s.f[test].phis[0].dst))
    ensures var s' := EndLoop(c, s, test, body); var e := Skip(t, at) + 1;
            InOrder(t, c, s'.f, S[e := HereOrOrigin(s')], open, e)
  {
    hide WF, Footer, SyncedAt, InOrder, Level, EndLoop;
    var s' := EndLoop(c, s, test, body);
    var e := Skip(t, at) + 1;
    EndLoopGood(c, s, test, body);
    CloseSynced(t, c, s, S, at, start, test, body);
    InOrderCloses(t, c, s.f, S, open, at, s'.f, S[e := HereOrOrigin(s')], e, test);
  }

  /** A loop is closed at the bracket after at. */
  lemma TrackEnd(t: string, c: Target, s: Code, S: Ties, open: set<nat>, pend: set<nat>, at: nat, start: nat,
                 test: nat, body: nat)
    requires Track(t, c, s, S, open, pend, at)
    requires OpenLoop(c, s, test, body) && NoTieIn(S, test)
    requires Skip(t, at) < |t| && t[Skip(t, at)] == ']'
    requires 0 < start <= at && t[start - 1] == '[' && Level(t, start, Skip(t, at))
    requires Tied(S, start, Point(body, 0, s.f[test].phis[0].dst))
    ensures var s' := EndLoop(c, s, test, body); var e := Skip(t, at) + 1; var S' := S[e := HereOrOrigin(s')];
            && Track(t, c, s', S', open, pend - {test}, e)
            && Framed(s, S, s', S', {test}) && ClosedLoop(s, s', test, body)
  {
    hide WF, Footer, SyncedAt, InOrder, Level, EndLoop;
    var s' := EndLoop(c, s, test, body);
    var e := Skip(t, at) + 1;
    EndLoopGood(c, s, test, body);
    CloseTest(c, s, test, body);
    OrderEnd(t, c, s, S, open, at, start, test, body);
    FrameEnd(c, s, S, test, body, e);
  }

  /** Back in the enclosing text: the opening bracket's position is in order once its loop is closed. */
  lemma OpenSynced(t: string, c: Target, f: Func, S: Ties, at: nat, m: nat, test: nat)
    requires at in S && at <= |t| && Skip(t, at) < |t| && t[Skip(t, at)] == '['
    requires var k := Skip(t, at);
             && Level(t, k + 1, m) && m < |t| && t[m] == ']' && k + 1 in S && m + 1 in S
             && test < |f| && TestBlock(f, test, S[k + 1], S[m + 1])
    requires EndsHere(f, S[at], test) && |f[test].phis[0].incoming| > 0
    requires f[test].phis[0].incoming[0] == Incoming(S[at].head, S[at].block)
    ensures SyncedAt(t, c, f, S, at)
  {
    BracketsMatch(t, Skip(t, at), m);
  }

  // ----- One straight-line command -----

  lemma TrackRead(t: string, c: Target, s: Code, S: Ties, open: set<nat>, pend: set<nat>, at: nat)
    requires Track(t, c, s, S, open, pend, at) && Skip(t, at) < |t| && t[Skip(t, at)] == ','
    ensures s.cur < |s.f|
    ensures var e := Skip(t, at) + 1; var s' := EmitRead(s); var S' := S[e := HereOrOrigin(s')];
            Track(t, c, s', S', open, pend, e) && Framed(s, S, s', S', {})
  {
    EmitReadGood(c, s);
    TrackStep(t, c, s, S, open, pend, at, EmitRead(s), Skip(t, at) + 1);
  }

  lemma TrackWrite(t: string, c: Target, s: Code, S: Ties, open: set<nat>, pend: set<nat>, at: nat)
    requires Track(t, c, s, S, open, pend, at) && Skip(t, at) < |t| && t[Skip(t, at)] == '.'
    ensures s.cur < |s.f|
    ensures var e := Skip(t, at) + 1; var s' := EmitWrite(s); var S' := S[e := HereOrOrigin(s')];
            Track(t, c, s', S', open, pend, e) && Framed(s, S, s', S', {})
  {
    EmitWriteGood(c, s);
    TrackStep(t, c, s, S, open, pend, at, EmitWrite(s), Skip(t, at) + 1);
  }

  lemma TrackChange(t: string, c: Target, s: Code, S: Ties, open: set<nat>, pend: set<nat>, at: nat, n: int)
    requires Track(t, c, s, S, open, pend, at) && Skip(t, at) < |t| && IsChange(t[Skip(t, at)])
    requires n == Net(t, Skip(t, at), RunEnd(t, Skip(t, at), false))
    ensures s.cur < |s.f|
    ensures var e := RunEnd(t, Skip(t, at), false); var s' := EmitChange(s, n); var S' := S[e := HereOrOrigin(s')];
            Track(t, c, s', S', open, pend, e) && Framed(s, S, s', S', {})
  {
    EmitChangeGood(c, s, n);
    TrackStep(t, c, s, S, open, pend, at, EmitChange(s, n), RunEnd(t, Skip(t, at), false));
  }

  lemma TrackMove(t: string, c: Target, s: Code, S: Ties, open: set<nat>, pend: set<nat>, at: nat, n: int)
    requires Track(t, c, s, S, open, pend, at) && Skip(t, at) < |t| && IsMove(t[Skip(t, at)])
    requires n == Net(t, Skip(t, at), RunEnd(t, Skip(t, at), true))
    ensures s.cur < |s.f|
    ensures var e := RunEnd(t, Skip(t, at), true); var s' := EmitMove(c, s, n); var S' := S[e := HereOrOrigin(s')];
            Track(t, c, s', S', open, pend, e) && Framed(s, S, s', S', {})
  {
    EmitMoveGood(c, s, n);
    TrackStep(t, c, s, S, open, pend, at, EmitMove(c, s, n), RunEnd(t, Skip(t, at), true));
  }

  /** An enclosing loop that is still open is not affected by what happens elsewhere. */
  lemma OpenLoopKept(c: Target, s0: Code, S0: Ties, s1: Code, S1: Ties, test: nat, body: nat)
    requires OpenLoop(c, s0, test, body) && NoTieIn(S0, test) && Framed(s0, S0, s1, S1, {}) && |s1.f| == |s1.avail|
    ensures OpenLoop(c, s1, test, body) && NoTieIn(S1, test) && s1.f[test] == s0.f[test]
  {
    assert s1.f[test] == s0.f[test];
    assert BlockGrows(s0.f[body], s1.f[body]);
    forall x | x in S1 ensures S1[x].block != test {
      if x in S0 { assert S1[x] == S0[x]; }
    }
  }

  lemma TrackOpen(t: string, c: Target, s: Code, S: Ties, open: set<nat>, pend: set<nat>, at: nat)
    requires Track(t, c, s, S, open, pend, at)
    ensures s.cur < |s.f| == |s.avail| && s.f[s.cur].term.None?
  {
  }

  // ----- The end of the text -----

  /** The function once the program's own code is complete. */
  ghost predicate Complete(t: string, c: Target, s: Code, S: Ties, open: set<nat>, pend: set<nat>) {
    && c.final.Some?
    && WF(s.f, s.avail, s.defs, s.next) && Footer(c, s.f)
    && (forall x {:trigger SyncedAt(t, c, s.f, S, x)} :: x in S && x !in open ==> SyncedAt(t, c, s.f, S, x))
    && (forall b {:trigger s.f[b]} :: 0 <= b < |s.f| && s.f[b].term.None? ==> b in pend)
  }

  lemma FinalKnown(t: string, c: Target, f: Func, S: Ties, x: nat, r: Reg)
    requires c.final.None? && SyncedAt(t, c, f, S, x)
    ensures SyncedAt(t, c.(final := Some(r)), f, S, x)
  {
    var p := S[x];
    var k := Skip(t, x);
    if k < |t| && IsMove(t[k]) {
      assert GuardedMove(f, c.(final := Some(r)), p, Net(t, k, RunEnd(t, k, true)), S[RunEnd(t, k, true)]);
    }
  }

  lemma TrackFinish(t: string, c: Target, s: Code, S: Ties, open: set<nat>, pend: set<nat>, at: nat)
    requires Track(t, c, s, S, open, pend, at) && Skip(t, at) == |t| && at !in open
    ensures s.cur < |s.f| && s.f[s.cur].term.None?
    ensures var s' := CloseCur(s, Br(c.endbb));
            Complete(t, c.(final := Some(s.head)), s', S, open, pend)
  {
    var s' := CloseCur(s, Br(c.endbb));
    var c' := c.(final := Some(s.head));
    TerminateWF(s.f, s.avail, s.defs, s.next, s.cur, Br(c.endbb));
    TerminateGrows(s.f, s.cur, Br(c.endbb));
    forall x | x in S && x !in open ensures SyncedAt(t, c', s'.f, S, x) {
      if x != at {
        assert SyncedAt(t, c, s.f, S, x);
        GrowsKeepsSync(t, c, s.f, s'.f, S, S, x);
        FinalKnown(t, c, s'.f, S, x, s.head);
      }
    }
  }

  // ----- What the recursive reader promises -----

  /** Inside a loop: the text since its opening bracket at start - 1, and the loop's half-made code. */
  ghost predicate InLoop(t: string, c: Target, s: Code, S: Ties, start: nat, phi: Reg, test: nat, body: nat) {
    && 0 < start <= |t| && t[start - 1] == '['
    && OpenLoop(c, s, test, body) && s.f[test].phis[0].dst == phi && NoTieIn(S, test)
    && Tied(S, start, Point(body, 0, phi))
  }

  /** Opening a loop sets the scene for reading its body. */
  lemma TrackLoop(t: string, c: Target, s: Code, S: Ties, open: set<nat>, pend: set<nat>, at: nat)
    requires Track(t, c, s, S, open, pend, at)
    requires Skip(t, at) < |t| && t[Skip(t, at)] == '['
    ensures s.cur < |s.f|
    ensures var s' := BeginLoop(c, s); var e := Skip(t, at) + 1; var S' := S[e := HereOrOrigin(s')];
            && Track(t, c, s', S', open + {at}, pend + {|s.f|}, e)
            && InLoop(t, c, s', S', e, s'.head, |s.f|, s'.cur)
  {
    TrackBegin(t, c, s, S, open, pend, at);
  }

  /** The loop that began at start has been closed by the bracket before e. */
  ghost predicate LoopDone(t: string, s0: Code, s1: Code, S: Ties, start: nat, e: nat, test: nat) {
    && start < e <= |t| && t[e - 1] == ']' && Level(t, start, e - 1)
    && start in S && e in S && test < |s0.f| && test < |s1.f| && TestBlock(s1.f, test, S[start], S[e])
    && |s0.f[test].phis| == 1 && |s0.f[test].phis[0].incoming| == 1 && |s1.f[test].phis[0].incoming| > 0
    && s1.f[test].phis[0].incoming[0] == s0.f[test].phis[0].incoming[0]
  }

  /** Closing the loop that started at start, from a state reached from s0. */
  lemma FinishLoop(t: string, c: Target, s0: Code, S0: Ties, s: Code, S: Ties, open: set<nat>, pend: set<nat>,
                   start: nat, at: nat, phi: Reg, test: nat, body: nat)
    requires InLoop(t, c, s0, S0, start, phi, test, body) && test in pend
    requires Track(t, c, s, S, open, pend, at) && Framed(s0, S0, s, S, {}) && start <= at
    requires Level(t, start, at) && Skip(t, at) < |t| && t[Skip(t, at)] == ']'
    ensures s.cur < |s.f| && test < |s.f| && test != s.cur && |s.f[test].phis| == 1
    ensures var e := Skip(t, at) + 1;
            var s' := EndLoop(c, s, test, body); var S' := S[e := HereOrOrigin(s')];
            && Track(t, c, s', S', open, pend - {test}, e)
            && Framed(s0, S0, s', S', {test}) && LoopDone(t, s0, s', S', start, e, test)
  {
    hide WF, Footer, SyncedAt, InOrder, Grows, EndLoop, Level, Bal;
    TrackOpen(t, c, s, S, open, pend, at);
    OpenLoopKept(c, s0, S0, s, S, test, body);
    LevelFlat(t, start, at, Skip(t, at));
    TrackEnd(t, c, s, S, open, pend, at, start, test, body);
    var e := Skip(t, at) + 1;
    var s' := EndLoop(c, s, test, body);
    FramedTrans(s0, S0, s, S, s', S[e := HereOrOrigin(s')], {test}, {test});
  }

  /** What opening a loop at the bracket after at, and closing it before e, has done. */
  ghost predicate LoopWritten(t: string, c: Target, s: Code, S: Ties, at: nat, s2: Code, S2: Ties, e: nat)
    requires s.cur < |s.f| && at <= |t|
  {
    var s1 := BeginLoop(c, s); var k := Skip(t, at); var S1 := S[k + 1 := HereOrOrigin(s1)];
    && k < |t| && t[k] == '['
    && Framed(s1, S1, s2, S2, {|s.f|}) && LoopDone(t, s1, s2, S2, k + 1, e, |s.f|)
  }

  lemma LoopFramed(t: string, c: Target, s: Code, S: Ties, open: set<nat>, pend: set<nat>, at: nat,
                   s2: Code, S2: Ties, e: nat)
    requires Track(t, c, s, S, open, pend, at) && LoopWritten(t, c, s, S, at, s2, S2, e)
    ensures Framed(s, S, s2, S2, {}) && Tied(S2, at, Here(s))
  {
    var s1 := BeginLoop(c, s);
    var S1 := S[Skip(t, at) + 1 := HereOrOrigin(s1)];
    TrackBegin(t, c, s, S, open, pend, at);
    FramedTrans(s, S, s1, S1, s2, S2, {|s.f|}, {});
  }

  /** The position before a loop is in order once the loop is closed. */
  lemma LoopSynced(t: string, c: Target, s: Code, S: Ties, open: set<nat>, pend: set<nat>, at: nat,
                   s2: Code, S2: Ties, e: nat)
    requires Track(t, c, s, S, open, pend, at) && LoopWritten(t, c, s, S, at, s2, S2, e)
    ensures SyncedAt(t, c, s2.f, S2, at)
  {
    var s1 := BeginLoop(c, s);
    TrackBegin(t, c, s, S, open, pend, at);
    LoopFramed(t, c, s, S, open, pend, at, s2, S2, e);
    assert BlockGrows(s1.f[s.cur], s2.f[s.cur]);
    OpenSynced(t, c, s2.f, S2, at, e - 1, |s.f|);
  }

  lemma InOrderNarrow(t: string, c: Target, f: Func, S: Ties, open: set<nat>, at: nat, e: nat)
    requires InOrder(t, c, f, S, open + {at}, e) && SyncedAt(t, c, f, S, at)
    ensures InOrder(t, c, f, S, open, e)
  {
    forall x | x in S && x !in open && x != e ensures SyncedAt(t, c, f, S, x) {
      if x != at { assert x !in open + {at}; }
    }
  }

  /** After a loop the enclosing text is back in its own invariant. */
  lemma AfterLoop(t: string, c: Target, s: Code, S: Ties, open: set<nat>, pend: set<nat>, at: nat,
                  s2: Code, S2: Ties, e: nat)
    requires Track(t, c, s, S, open, pend, at) && LoopWritten(t, c, s, S, at, s2, S2, e)
    requires Track(t, c, s2, S2, open + {at}, pend + {|s.f|} - {|s.f|}, e)
    ensures Track(t, c, s2, S2, open, pend, e) && Framed(s, S, s2, S2, {})
  {
    LoopFramed(t, c, s, S, open, pend, at, s2, S2, e);
    LoopSynced(t, c, s, S, open, pend, at, s2, S2, e);
    InOrderNarrow(t, c, s2.f, S2, open, at, e);
  }

  lemma FinishFramed(c: Target, s0: Code, S0: Ties, s: Code, S: Ties)
    requires Framed(s0, S0, s, S, {}) && s.cur < |s.f| && s.f[s.cur].term.None?
    ensures Framed(s0, S0, CloseCur(s, Br(c.endbb)), S, {})
  {
    var s' := CloseCur(s, Br(c.endbb));
    forall b | 0 <= b < |s0.f| ensures BlockGrows(s0.f[b], s'.f[b]) {
      assert BlockGrows(s0.f[b], s.f[b]);
    }
    forall b | 0 <= b < |s0.f| && b != s0.cur ensures s'.f[b] == s0.f[b] {
      assert s.f[b] == s0.f[b];
    }
  }

  lemma TrackHeader(t: string, c: Target, mem: nat)
    requires c.endbb == 1 && c.aberrorbb == 2 && c.final.None?
    ensures var s := HeaderCode(c, mem);
            Track(t, c, s, map[0 := HereOrOrigin(s)], {}, {}, 0)
  {
    HeaderGood(c, mem);
  }

  lemma HeaderKept(c: Target, mem: nat, s: Code, S: Ties, s': Code, S': Ties)
    requires c.endbb == 1 && c.aberrorbb == 2 && s == HeaderCode(c, mem) && S == map[0 := HereOrOrigin(s)]
    requires Framed(s, S, s', S', {})
    ensures Tied(S', 0, Point(0, |EntryInstrs(c, mem)|, 3))
    ensures |s'.f| > 0 && s'.f[0].phis == [] && EntryInstrs(c, mem) <= s'.f[0].instrs
  {
    HeaderGood(c, mem);
    assert BlockGrows(s.f[0], s'.f[0]);
    assert 0 in S;
  }
}
