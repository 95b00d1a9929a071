/** Static single assignment, checked while the function is still being built: every block keeps the set of
    registers that are defined whenever it is entered, and every register remembers where it is defined. */
module BrainFWellFormed {
  import opened Options
  import opened BrainFSource
  import opened BrainFIR

  datatype Site = PhiSite(block: nat, index: nat) | InstrSite(block: nat, index: nat)

  predicate Defines(f: Func, s: Site, r: Reg) {
    && s.block < |f|
    && match s
       case PhiSite(b, k) => k < |f[b].phis| && f[b].phis[k].dst == r
       case InstrSite(b, i) => i < |f[b].instrs| && r in f[b].instrs[i].Dsts()
  }

  function PhiDsts(phis: seq<Phi>): set<Reg> { set k | 0 <= k < |phis| :: phis[k].dst }

  function DefsOf(code: seq<Instr>): set<Reg> {
    if code == [] then {} else DefsOf(code[..|code| - 1]) + code[|code| - 1].Dsts()
  }

  /** The registers defined when control leaves block b that was entered with av defined. */
  function OutRegs(b: Block, av: set<Reg>): set<Reg> { av + PhiDsts(b.phis) + DefsOf(b.instrs) }

  predicate HasTarget(b: Block, t: nat) { b.term.Some? && t in b.term.value.Targets() }

  predicate Froms(phi: Phi, p: nat) { exists k :: 0 <= k < |phi.incoming| && phi.incoming[k].from == p }

  predicate OneEach(phi: Phi) {
    forall k, l :: 0 <= k < l < |phi.incoming| ==> phi.incoming[k].from != phi.incoming[l].from
  }

  // ----- What a well-formed, possibly unfinished, function satisfies -----

  predicate UsesOK(b: Block, av: set<Reg>) {
    forall i :: 0 <= i < |b.instrs| ==> b.instrs[i].Uses() <= av + PhiDsts(b.phis) + DefsOf(b.instrs[..i])
  }

  predicate TermOK(f: Func, avail: seq<set<Reg>>, p: nat)
    requires p < |f| == |avail|
  {
    f[p].term.Some? ==>
      && f[p].term.value.Uses() <= OutRegs(f[p], avail[p])
      && forall q :: q in f[p].term.value.Targets() ==> q < |f| && avail[q] <= OutRegs(f[p], avail[p])
  }

  /** One entry per predecessor, none for any other block. */
  predicate PhiPreds(f: Func, b: nat, phi: Phi) {
    OneEach(phi) && forall p :: 0 <= p < |f| ==> (Froms(phi, p) <==> HasTarget(f[p], b))
  }

  predicate PhiValues(f: Func, avail: seq<set<Reg>>, phi: Phi)
    requires |f| == |avail|
  {
    forall k :: 0 <= k < |phi.incoming| ==>
      phi.incoming[k].from < |f|
      && phi.incoming[k].val in OutRegs(f[phi.incoming[k].from], avail[phi.incoming[k].from])
  }

  predicate PhisOK(f: Func, avail: seq<set<Reg>>, b: nat)
    requires b < |f| == |avail|
  {
    forall k :: 0 <= k < |f[b].phis| ==> PhiPreds(f, b, f[b].phis[k]) && PhiValues(f, avail, f[b].phis[k])
  }

  ghost predicate DefsOK(f: Func, defs: map<Reg, Site>, next: Reg) {
    forall s, r: Reg :: Defines(f, s, r) ==> r < next && r in defs && defs[r] == s
  }

  ghost predicate WF(f: Func, avail: seq<set<Reg>>, defs: map<Reg, Site>, next: Reg) {
    && |f| == |avail| > 0 && avail[0] == {}
    && DefsOK(f, defs, next)
    && (forall b {:trigger UsesOK(f[b], avail[b])} :: 0 <= b < |f| ==> UsesOK(f[b], avail[b]))
    && (forall b {:trigger TermOK(f, avail, b)} :: 0 <= b < |f| ==> TermOK(f, avail, b))
    && (forall b {:trigger PhisOK(f, avail, b)} :: 0 <= b < |f| ==> PhisOK(f, avail, b))
  }

  // ----- Building steps -----

  function Append(f: Func, b: nat, i: Instr): Func
    requires b < |f|
  {
    f[b := f[b].(instrs := f[b].instrs + [i])]
  }

  function Terminate(f: Func, b: nat, t: Term): Func
    requires b < |f|
  {
    f[b := f[b].(term := Some(t))]
  }

  function AddPhi(f: Func, b: nat, phi: Phi): Func
    requires b < |f|
  {
    f[b := f[b].(phis := f[b].phis + [phi])]
  }

  function AddIncoming(f: Func, b: nat, inc: Incoming): Func
    requires b < |f| && |f[b].phis| == 1
  {
    f[b := f[b].(phis := [Phi(f[b].phis[0].dst, f[b].phis[0].incoming + [inc])])]
  }

  lemma DefsOfAppend(code: seq<Instr>, i: Instr)
    ensures DefsOf(code + [i]) == DefsOf(code) + i.Dsts()
  {
    assert (code + [i])[..|code|] == code;
  }

  lemma AppendOut(f: Func, b: nat, i: Instr, av: set<Reg>)
    requires b < |f|
    ensures OutRegs(Append(f, b, i)[b], av) == OutRegs(f[b], av) + i.Dsts()
  {
    DefsOfAppend(f[b].instrs, i);
  }

  /** Every block's outgoing set is at least what it was. */
  ghost predicate OutGrows(f: Func, f': Func, avail: seq<set<Reg>>) {
    |f| == |f'| == |avail| && forall p {:trigger OutRegs(f'[p], avail[p])} :: 0 <= p < |f| ==> OutRegs(f[p], avail[p]) <= OutRegs(f'[p], avail[p])
  }

  lemma PhisStayOK(f: Func, f': Func, avail: seq<set<Reg>>, b: nat)
    requires OutGrows(f, f', avail) && b < |f| && PhisOK(f, avail, b)
    requires f'[b].phis == f[b].phis
    requires forall p :: 0 <= p < |f| ==> f'[p].term == f[p].term
    ensures PhisOK(f', avail, b)
  {
    forall k | 0 <= k < |f[b].phis| ensures PhiPreds(f', b, f'[b].phis[k]) && PhiValues(f', avail, f'[b].phis[k]) {
      var phi := f[b].phis[k];
      assert PhiPreds(f, b, phi) && PhiValues(f, avail, phi);
    }
  }

  lemma TermStaysOK(f: Func, f': Func, avail: seq<set<Reg>>, b: nat)
    requires OutGrows(f, f', avail) && b < |f| && TermOK(f, avail, b)
    requires f'[b].term == f[b].term
    ensures TermOK(f', avail, b)
  {
  }

  lemma AppendUses(b: Block, av: set<Reg>, i: Instr)
    requires UsesOK(b, av) && i.Uses() <= OutRegs(b, av)
    ensures UsesOK(b.(instrs := b.instrs + [i]), av)
  {
    var code := b.instrs + [i];
    forall k | 0 <= k < |code| ensures code[k].Uses() <= av + PhiDsts(b.phis) + DefsOf(code[..k]) {
      assert code[..k] == b.instrs[..k];
      assert b.instrs[..|b.instrs|] == b.instrs;
    }
  }

  lemma AppendDefs(f: Func, defs: map<Reg, Site>, next: Reg, b: nat, i: Instr)
    requires DefsOK(f, defs, next) && b < |f| && i.Dsts() <= {next}
    ensures DefsOK(Append(f, b, i), defs[next := InstrSite(b, |f[b].instrs|)], next + 1)
  {
    var f' := Append(f, b, i);
    forall s, r: Reg | Defines(f', s, r)
      ensures r < next + 1 && r in defs[next := InstrSite(b, |f[b].instrs|)]
              && defs[next := InstrSite(b, |f[b].instrs|)][r] == s
    {
      if s != InstrSite(b, |f[b].instrs|) {
        assert Defines(f, s, r);
      }
    }
  }

  /** Appending an instruction that uses what is defined and defines at most the next register. */
  lemma AppendWF(f: Func, avail: seq<set<Reg>>, defs: map<Reg, Site>, next: Reg, b: nat, i: Instr)
    requires WF(f, avail, defs, next) && b < |f| && f[b].term.None?
    requires i.Uses() <= OutRegs(f[b], avail[b]) && i.Dsts() <= {next}
    ensures WF(Append(f, b, i), avail, defs[next := InstrSite(b, |f[b].instrs|)], next + 1)
    ensures OutRegs(Append(f, b, i)[b], avail[b]) == OutRegs(f[b], avail[b]) + i.Dsts()
  {
    var f' := Append(f, b, i);
    AppendOut(f, b, i, avail[b]);
    AppendDefs(f, defs, next, b, i);
    assert OutGrows(f, f', avail);
    forall p | 0 <= p < |f| ensures TermOK(f', avail, p) && PhisOK(f', avail, p) && UsesOK(f'[p], avail[p]) {
      assert TermOK(f, avail, p) && PhisOK(f, avail, p) && UsesOK(f[p], avail[p]);
      TermStaysOK(f, f', avail, p);
      PhisStayOK(f, f', avail, p);
      AppendUses(f[b], avail[b], i);
    }
  }

  /** A new empty block, reached by nobody yet. */
  lemma NewBlockWF(f: Func, avail: seq<set<Reg>>, defs: map<Reg, Site>, next: Reg, av: set<Reg>)
    requires WF(f, avail, defs, next)
    ensures WF(f + [EMPTY_BLOCK], avail + [av], defs, next)
  {
    var f', avail' := f + [EMPTY_BLOCK], avail + [av];
    forall s, r: Reg | Defines(f', s, r) ensures r < next && r in defs && defs[r] == s {
      assert Defines(f, s, r);
    }
    forall p | 0 <= p < |f'| ensures TermOK(f', avail', p) && PhisOK(f', avail', p) && UsesOK(f'[p], avail'[p]) {
      if p < |f| {
        assert TermOK(f, avail, p) && PhisOK(f, avail, p) && UsesOK(f[p], avail[p]);
        NewBlockPhis(f, avail, av, p);
      }
    }
  }

  lemma NewBlockPhis(f: Func, avail: seq<set<Reg>>, av: set<Reg>, b: nat)
    requires |f| == |avail| && b < |f| && PhisOK(f, avail, b)
    requires forall p :: 0 <= p < |f| ==> TermOK(f, avail, p)
    ensures PhisOK(f + [EMPTY_BLOCK], avail + [av], b)
  {
    var f', avail' := f + [EMPTY_BLOCK], avail + [av];
    forall k | 0 <= k < |f[b].phis| ensures PhiPreds(f', b, f'[b].phis[k]) && PhiValues(f', avail', f'[b].phis[k]) {
      var phi := f[b].phis[k];
      assert PhiPreds(f, b, phi) && PhiValues(f, avail, phi);
      forall p | 0 <= p < |f'| ensures Froms(phi, p) <==> HasTarget(f'[p], b) {
        if p < |f| { assert Froms(phi, p) <==> HasTarget(f[p], b); }
      }
    }
  }

  /** Closing a block with a jump to blocks that have no phis. */
  lemma TerminateWF(f: Func, avail: seq<set<Reg>>, defs: map<Reg, Site>, next: Reg, b: nat, t: Term)
    requires WF(f, avail, defs, next) && b < |f| && f[b].term.None?
    requires t.Uses() <= OutRegs(f[b], avail[b])
    requires forall q :: q in t.Targets() ==> q < |f| && avail[q] <= OutRegs(f[b], avail[b]) && f[q].phis == []
    ensures WF(Terminate(f, b, t), avail, defs, next)
  {
    var f' := Terminate(f, b, t);
    forall s, r: Reg | Defines(f', s, r) ensures r < next && r in defs && defs[r] == s {
      assert Defines(f, s, r);
    }
    assert forall p :: 0 <= p < |f| ==> OutRegs(f'[p], avail[p]) == OutRegs(f[p], avail[p]);
    forall p | 0 <= p < |f'| ensures TermOK(f', avail, p) && PhisOK(f', avail, p) && UsesOK(f'[p], avail[p]) {
      assert TermOK(f, avail, p) && PhisOK(f, avail, p) && UsesOK(f[p], avail[p]);
      TerminatePhis(f, avail, b, t, p);
    }
  }

  lemma TerminatePhis(f: Func, avail: seq<set<Reg>>, b: nat, t: Term, q: nat)
    requires |f| == |avail| && b < |f| && f[b].term.None? && q < |f| && PhisOK(f, avail, q)
    requires q in t.Targets() ==> f[q].phis == []
    ensures PhisOK(Terminate(f, b, t), avail, q)
  {
    var f' := Terminate(f, b, t);
    forall k | 0 <= k < |f[q].phis| ensures PhiPreds(f', q, f'[q].phis[k]) && PhiValues(f', avail, f'[q].phis[k]) {
      var phi := f[q].phis[k];
      assert PhiPreds(f, q, phi) && PhiValues(f, avail, phi);
      forall p | 0 <= p < |f'| ensures Froms(phi, p) <==> HasTarget(f'[p], q) {
        assert Froms(phi, p) <==> HasTarget(f[p], q);
      }
    }
  }

  /** A first phi, with one entry, in a block that has one predecessor. */
  lemma AddPhiWF(f: Func, avail: seq<set<Reg>>, defs: map<Reg, Site>, next: Reg, b: nat, p: nat, h: Reg)
    requires WF(f, avail, defs, next) && b < |f| && p < |f| && f[b].phis == [] && f[b].instrs == []
    requires h in OutRegs(f[p], avail[p])
    requires forall q :: 0 <= q < |f| ==> (HasTarget(f[q], b) <==> q == p)
    ensures WF(AddPhi(f, b, Phi(next, [Incoming(h, p)])), avail, defs[next := PhiSite(b, 0)], next + 1)
  {
    var phi := Phi(next, [Incoming(h, p)]);
    var f' := AddPhi(f, b, phi);
    forall s, r: Reg | Defines(f', s, r)
      ensures r < next + 1 && r in defs[next := PhiSite(b, 0)] && defs[next := PhiSite(b, 0)][r] == s
    {
      if s != PhiSite(b, 0) { assert Defines(f, s, r); }
    }
    assert OutGrows(f, f', avail);
    forall q | 0 <= q < |f'| ensures TermOK(f', avail, q) && PhisOK(f', avail, q) && UsesOK(f'[q], avail[q]) {
      assert TermOK(f, avail, q) && PhisOK(f, avail, q) && UsesOK(f[q], avail[q]);
      TermStaysOK(f, f', avail, q);
      if q == b { OnePhiOK(f', avail, b, p, phi); } else { PhisStayOK(f, f', avail, q); }
    }
  }

  lemma OnePhiOK(f: Func, avail: seq<set<Reg>>, b: nat, p: nat, phi: Phi)
    requires b < |f| == |avail| && p < |f| && f[b].phis == [phi]
    requires |phi.incoming| == 1 && phi.incoming[0].from == p && phi.incoming[0].val in OutRegs(f[p], avail[p])
    requires forall q :: 0 <= q < |f| ==> (HasTarget(f[q], b) <==> q == p)
    ensures PhisOK(f, avail, b)
  {
    assert phi.incoming[0].from == p;
    forall q | 0 <= q < |f| ensures Froms(phi, q) <==> HasTarget(f[q], b) {
    }
  }

  /** Closing block p with a jump back to a loop's test block, whose phi gets the matching entry. */
  lemma BackEdgeWF(f: Func, avail: seq<set<Reg>>, defs: map<Reg, Site>, next: Reg, b: nat, p: nat, h: Reg)
    requires WF(f, avail, defs, next) && b < |f| && p < |f| && b != p && f[p].term.None? && |f[b].phis| == 1
    requires h in OutRegs(f[p], avail[p]) && avail[b] <= OutRegs(f[p], avail[p])
    ensures WF(AddIncoming(Terminate(f, p, Br(b)), b, Incoming(h, p)), avail, defs, next)
  {
    var phi := f[b].phis[0];
    var f' := AddIncoming(Terminate(f, p, Br(b)), b, Incoming(h, p));
    forall s, r: Reg | Defines(f', s, r) ensures r < next && r in defs && defs[r] == s {
      assert Defines(f, s, r);
    }
    OnePhiDst(phi);
    OnePhiDst(Phi(phi.dst, phi.incoming + [Incoming(h, p)]));
    assert f[b].phis == [phi];
    assert forall q :: 0 <= q < |f| ==> OutRegs(f'[q], avail[q]) == OutRegs(f[q], avail[q]);
    forall q | 0 <= q < |f'| ensures TermOK(f', avail, q) && PhisOK(f', avail, q) && UsesOK(f'[q], avail[q]) {
      assert TermOK(f, avail, q) && PhisOK(f, avail, q) && UsesOK(f[q], avail[q]);
      if q == b { BackEdgePhi(f, f', avail, b, p, h); }
      else {
        TerminatePhis(f, avail, p, Br(b), q);
        assert forall l :: 0 <= l < |f| ==> f'[l].term == Terminate(f, p, Br(b))[l].term;
        PhisStayOK(Terminate(f, p, Br(b)), f', avail, q);
      }
    }
  }

  lemma OnePhiDst(phi: Phi)
    ensures PhiDsts([phi]) == {phi.dst}
  {
    assert [phi][0] == phi;
  }

  lemma BackEdgePhi(f: Func, f': Func, avail: seq<set<Reg>>, b: nat, p: nat, h: Reg)
    requires b < |f| == |avail| && p < |f| && b != p && f[p].term.None? && |f[b].phis| == 1
    requires PhisOK(f, avail, b) && h in OutRegs(f[p], avail[p])
    requires f' == AddIncoming(Terminate(f, p, Br(b)), b, Incoming(h, p))
    requires forall q :: 0 <= q < |f| ==> OutRegs(f'[q], avail[q]) == OutRegs(f[q], avail[q])
    ensures PhisOK(f', avail, b)
  {
    var phi, phi' := f[b].phis[0], f'[b].phis[0];
    assert PhiPreds(f, b, phi) && PhiValues(f, avail, phi);
    assert !Froms(phi, p);
    assert phi'.incoming[|phi.incoming|].from == p;
    forall q | 0 <= q < |f'| ensures Froms(phi', q) <==> HasTarget(f'[q], b) {
      if q != p {
        assert Froms(phi, q) <==> HasTarget(f[q], b);
        if Froms(phi, q) {
          var k :| 0 <= k < |phi.incoming| && phi.incoming[k].from == q;
          assert phi'.incoming[k].from == q;
        }
        if Froms(phi', q) {
          var k :| 0 <= k < |phi'.incoming| && phi'.incoming[k].from == q;
          assert phi.incoming[k].from == q;
        }
      }
    }
    assert PhiPreds(f', b, phi');
  }

  // ----- Finished functions, judged without the bookkeeping -----

  ghost predicate IsPath(f: Func, path: seq<nat>) {
    && |path| > 0 && path[0] == 0
    && (forall i :: 0 <= i < |path| ==> path[i] < |f|)
    && forall i :: 0 <= i < |path| - 1 ==> HasTarget(f[path[i]], path[i + 1])
  }

  /** On this path, r is defined before instruction i of the path's last block. */
  ghost predicate DefinedBefore(f: Func, path: seq<nat>, i: nat, r: Reg)
    requires |path| > 0
  {
    exists s :: Defines(f, s, r) &&
      (s.block in path[..|path| - 1] || (s.block == path[|path| - 1] && (s.PhiSite? || s.index < i)))
  }

  ghost predicate AllClosed(f: Func) {
    forall b :: 0 <= b < |f| ==> f[b].term.Some? && forall q :: q in f[b].term.value.Targets() ==> q < |f|
  }

  ghost predicate PhisExact(f: Func) {
    forall b, k :: 0 <= b < |f| && 0 <= k < |f[b].phis| ==> PhiPreds(f, b, f[b].phis[k])
  }

  ghost predicate SingleDefs(f: Func) {
    forall s, s', r: Reg :: Defines(f, s, r) && Defines(f, s', r) ==> s == s'
  }

  /** Every operand is defined, in its only definition, on every path that leads to the use. */
  ghost predicate UsesDominated(f: Func, path: seq<nat>)
    requires IsPath(f, path)
  {
    var b := f[path[|path| - 1]];
    && (forall i, r: Reg :: 0 <= i < |b.instrs| && r in b.instrs[i].Uses() ==> DefinedBefore(f, path, i, r))
    && (b.term.Some? ==> forall r: Reg :: r in b.term.value.Uses() ==> DefinedBefore(f, path, |b.instrs|, r))
  }

  /** A phi's operand is defined on every path that ends with the predecessor it belongs to. */
  ghost predicate PhiUsesDominated(f: Func, path: seq<nat>)
    requires IsPath(f, path)
  {
    var p := path[|path| - 1];
    forall b, k, l | 0 <= b < |f| && 0 <= k < |f[b].phis| && 0 <= l < |f[b].phis[k].incoming| ::
      f[b].phis[k].incoming[l].from == p ==> DefinedBefore(f, path, |f[p].instrs|, f[b].phis[k].incoming[l].val)
  }

  ghost predicate SSA(f: Func) {
    && AllClosed(f) && PhisExact(f) && SingleDefs(f)
    && forall path {:trigger IsPath(f, path)} :: IsPath(f, path) ==> UsesDominated(f, path) && PhiUsesDominated(f, path)
  }

  lemma {:induction false} DefsOfSite(code: seq<Instr>, r: Reg) returns (i: nat)
    requires r in DefsOf(code)
    ensures i < |code| && r in code[i].Dsts()
  {
    if r in code[|code| - 1].Dsts() { i := |code| - 1; } else { i := DefsOfSite(code[..|code| - 1], r); }
  }

  /** A register in a block's outgoing set is defined on every path that ends there. */
  lemma {:induction false} OutDefined(f: Func, avail: seq<set<Reg>>, path: seq<nat>, i: nat, r: Reg)
    requires |f| == |avail| > 0 && avail[0] == {} && IsPath(f, path)
    requires forall b :: 0 <= b < |f| ==> TermOK(f, avail, b)
    requires var b := path[|path| - 1];
             i <= |f[b].instrs| && r in avail[b] + PhiDsts(f[b].phis) + DefsOf(f[b].instrs[..i])
    ensures DefinedBefore(f, path, i, r)
    decreases |path|
  {
    var b := path[|path| - 1];
    if r in PhiDsts(f[b].phis) {
      var k :| 0 <= k < |f[b].phis| && f[b].phis[k].dst == r;
      assert Defines(f, PhiSite(b, k), r);
    } else if r in DefsOf(f[b].instrs[..i]) {
      var k := DefsOfSite(f[b].instrs[..i], r);
      assert Defines(f, InstrSite(b, k), r);
    } else {
      var before := path[..|path| - 1];
      var p := before[|before| - 1];
      assert HasTarget(f[p], path[|before| - 1 + 1]);
      assert TermOK(f, avail, p);
      assert f[p].instrs[..|f[p].instrs|] == f[p].instrs;
      OutDefined(f, avail, before, |f[p].instrs|, r);
      var s :| Defines(f, s, r) &&
        (s.block in before[..|before| - 1] || (s.block == p && (s.PhiSite? || s.index < |f[p].instrs|)));
      assert s.block in before;
    }
  }

  lemma PathUses(f: Func, avail: seq<set<Reg>>, defs: map<Reg, Site>, next: Reg, path: seq<nat>)
    requires WF(f, avail, defs, next) && IsPath(f, path)
    ensures UsesDominated(f, path) && PhiUsesDominated(f, path)
  {
    var p := path[|path| - 1];
    var b := f[p];
    assert UsesOK(b, avail[p]) && TermOK(f, avail, p);
    assert b.instrs[..|b.instrs|] == b.instrs;
    forall i, r: Reg | 0 <= i < |b.instrs| && r in b.instrs[i].Uses() ensures DefinedBefore(f, path, i, r) {
      OutDefined(f, avail, path, i, r);
    }
    forall r: Reg | r in OutRegs(b, avail[p]) ensures DefinedBefore(f, path, |b.instrs|, r) {
      OutDefined(f, avail, path, |b.instrs|, r);
    }
    forall c, k, l | 0 <= c < |f| && 0 <= k < |f[c].phis| && 0 <= l < |f[c].phis[k].incoming| &&
                     f[c].phis[k].incoming[l].from == p
      ensures DefinedBefore(f, path, |b.instrs|, f[c].phis[k].incoming[l].val)
    {
      assert PhisOK(f, avail, c);
      assert PhiValues(f, avail, f[c].phis[k]);
    }
  }

  /** A well-formed function whose blocks are all closed is in SSA form. */
  lemma FinishedIsSSA(f: Func, avail: seq<set<Reg>>, defs: map<Reg, Site>, next: Reg)
    requires WF(f, avail, defs, next)
    requires forall b :: 0 <= b < |f| ==> f[b].term.Some?
    ensures SSA(f)
  {
    assert AllClosed(f) by {
      forall b | 0 <= b < |f| ensures forall q :: q in f[b].term.value.Targets() ==> q < |f| {
        assert TermOK(f, avail, b);
      }
    }
    forall b, k | 0 <= b < |f| && 0 <= k < |f[b].phis| ensures PhiPreds(f, b, f[b].phis[k]) {
      assert PhisOK(f, avail, b);
    }
    forall path | IsPath(f, path) ensures UsesDominated(f, path) && PhiUsesDominated(f, path) {
      PathUses(f, avail, defs, next, path);
    }
  }
}
