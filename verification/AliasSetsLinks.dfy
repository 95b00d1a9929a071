/** What brings pointers into one set: nothing but aliases and copies. And when a set is known to be one address. */
module AliasSetsLinks {
  import opened AliasSets
  import opened AliasSetsProof

  /** Does the oracle see the location and the member, at its record, overlap? */
  predicate Meets(o: Oracle, recs: map<Ptr, Rec>, p: Ptr, loc: Loc) { !Apart(o, At(recs, p), loc) }

  /** Of a must-alias set only the first member is asked. */
  predicate ToAsk(g: Group, p: Ptr) { p in g.ptrs && (g.must ==> p == g.ptrs[0]) }

  /** A set is hit exactly if a member that must be asked meets the location. */
  lemma HitExactly(o: Oracle, recs: map<Ptr, Rec>, g: Group, loc: Loc)
    requires Symmetric(o)
    ensures AliasesPointer(o, recs, g, loc) <==> exists p :: ToAsk(g, p) && Meets(o, recs, p, loc)
  {
    if AliasesPointer(o, recs, g, loc) {
      var p := if g.must then g.ptrs[0] else var q :| q in g.ptrs && o(loc, At(recs, q)) != NoAlias; q;
      assert o(loc, At(recs, p)) == o(At(recs, p), loc);
      assert ToAsk(g, p) && Meets(o, recs, p, loc);
    }
    if p :| ToAsk(g, p) && Meets(o, recs, p, loc) {
      assert o(loc, At(recs, p)) == o(At(recs, p), loc);
    }
  }

  lemma {:induction false} FoundStays(o: Oracle, st: State, loc: Loc, k: nat, found: nat)
    requires found < k <= |st.groups|
    ensures FindFrom(o, st, loc, k, found).at == found
    decreases |st.groups| - k
  {
    hide AliasesPointer, MergeSetIn;
    if k < |st.groups| {
      if AliasesPointer(o, st.recs, st.groups[k], loc) {
        MergeCount(o, st, found, k);
        FoundStays(o, MergeSetIn(o, st, found, k), loc, k + 1, found);
      } else {
        FoundStays(o, st, loc, k + 1, found);
      }
    }
  }

  lemma MergeCount(o: Oracle, st: State, i: nat, j: nat)
    requires i < |st.groups| && j < |st.groups| && i != j
    ensures |MergeSetIn(o, st, i, j).groups| == |st.groups| && MergeSetIn(o, st, i, j).recs == st.recs
  {
  }

  lemma {:induction false} NoneFound(o: Oracle, st: State, loc: Loc, k: nat)
    requires k <= |st.groups|
    ensures FindFrom(o, st, loc, k, -1).at == -1 <==>
              forall i {:trigger st.groups[i]} :: k <= i < |st.groups| ==> !AliasesPointer(o, st.recs, st.groups[i], loc)
    decreases |st.groups| - k
  {
    hide AliasesPointer, MergeSetIn;
    if k < |st.groups| {
      if AliasesPointer(o, st.recs, st.groups[k], loc) {
        FoundStays(o, st, loc, k + 1, k);
      } else {
        NoneFound(o, st, loc, k + 1);
      }
    }
  }

  /** A new set is made exactly if no member that must be asked meets the new pointer. */
  lemma NewExactly(o: Oracle, st: State, loc: Loc)
    requires Symmetric(o)
    ensures FindSetForPointer(o, st, loc).at == -1 <==>
              forall i, p {:trigger ToAsk(st.groups[i], p)} :: 0 <= i < |st.groups| && ToAsk(st.groups[i], p) ==> !Meets(o, st.recs, p, loc)
  {
    hide AliasesPointer, Meets, ToAsk, Symmetric, FindFrom;
    NoneFound(o, st, loc, 0);
    forall i | 0 <= i < |st.groups|
      ensures AliasesPointer(o, st.recs, st.groups[i], loc) <==> exists p :: ToAsk(st.groups[i], p) && Meets(o, st.recs, p, loc)
    {
      HitExactly(o, st.recs, st.groups[i], loc);
    }
  }

  // ----- Links -----

  /** Access k made q new, because of p: the two met, or q is a copy of p. */
  ghost predicate LinkAt(o: Oracle, h: seq<Access>, k: nat, p: Ptr, q: Ptr) {
    && k < |h|
    && var recs := After(o, h[..k]).st.recs;
       p in recs && q !in recs &&
       match h[k]
       case Touch(loc) => loc.p == q && Meets(o, recs, p, loc)
       case Clone(f, t) => f == p && t == q
  }

  ghost predicate Link(o: Oracle, h: seq<Access>, p: Ptr, q: Ptr) {
    exists k: nat :: LinkAt(o, h, k, p, q) || LinkAt(o, h, k, q, p)
  }

  /** Each pointer is linked to the next. */
  ghost predicate Chain(o: Oracle, h: seq<Access>, c: seq<Ptr>) {
    |c| > 0 && forall i {:trigger c[i]} :: 0 < i < |c| ==> Link(o, h, c[i - 1], c[i])
  }

  ghost predicate Chained(o: Oracle, h: seq<Access>, p: Ptr, q: Ptr) {
    exists c :: Chain(o, h, c) && c[0] == p && c[|c| - 1] == q
  }

  lemma ChainedSelf(o: Oracle, h: seq<Access>, p: Ptr)
    ensures Chained(o, h, p, p)
  {
    assert Chain(o, h, [p]);
  }

  lemma ChainedLink(o: Oracle, h: seq<Access>, p: Ptr, q: Ptr)
    requires Link(o, h, p, q)
    ensures Chained(o, h, p, q) && Chained(o, h, q, p)
  {
    assert Link(o, h, q, p);
    assert Chain(o, h, [p, q]) && Chain(o, h, [q, p]);
  }

  lemma ChainedTrans(o: Oracle, h: seq<Access>, p: Ptr, q: Ptr, r: Ptr)
    requires Chained(o, h, p, q) && Chained(o, h, q, r)
    ensures Chained(o, h, p, r)
  {
    hide Link;
    var c :| Chain(o, h, c) && c[0] == p && c[|c| - 1] == q;
    var d :| Chain(o, h, d) && d[0] == q && d[|d| - 1] == r;
    var e := c + d[1..];
    forall i {:trigger e[i]} | 0 < i < |e| ensures Link(o, h, e[i - 1], e[i]) {
      if i < |c| {
        assert e[i] == c[i] && e[i - 1] == c[i - 1];
      } else {
        assert e[i] == d[i - |c| + 1] && e[i - 1] == d[i - |c|];
      }
    }
    assert Chain(o, h, e) && e[0] == p && e[|e| - 1] == r;
  }

  /** Links outlive later accesses. */
  lemma LinkLater(o: Oracle, h: seq<Access>, a: Access, p: Ptr, q: Ptr)
    requires Link(o, h, p, q)
    ensures Link(o, h + [a], p, q)
  {
    hide Meets;
    var k: nat :| LinkAt(o, h, k, p, q) || LinkAt(o, h, k, q, p);
    assert (h + [a])[..k] == h[..k] && (h + [a])[k] == h[k];
    assert LinkAt(o, h + [a], k, p, q) || LinkAt(o, h + [a], k, q, p);
  }

  lemma ChainedLater(o: Oracle, h: seq<Access>, a: Access, p: Ptr, q: Ptr)
    requires Chained(o, h, p, q)
    ensures Chained(o, h + [a], p, q)
  {
    hide Link;
    var c :| Chain(o, h, c) && c[0] == p && c[|c| - 1] == q;
    forall i {:trigger c[i]} | 0 < i < |c| ensures Link(o, h + [a], c[i - 1], c[i]) { LinkLater(o, h, a, c[i - 1], c[i]); }
    assert Chain(o, h + [a], c);
  }

  /** Any two members of one set are chained. */
  ghost predicate AllChained(o: Oracle, h: seq<Access>, gs: seq<Group>) {
    forall i, p, q {:trigger Holds(gs, i, p), Holds(gs, i, q)} :: Holds(gs, i, p) && Holds(gs, i, q) ==> Chained(o, h, p, q)
  }

  lemma AllChainedLater(o: Oracle, h: seq<Access>, a: Access, gs: seq<Group>)
    requires AllChained(o, h, gs)
    ensures AllChained(o, h + [a], gs)
  {
    hide Chained;
    forall i, p, q | Holds(gs, i, p) && Holds(gs, i, q) ensures Chained(o, h + [a], p, q) { ChainedLater(o, h, a, p, q); }
  }

  /** Every member of the set is chained to z. */
  ghost predicate Around(o: Oracle, h: seq<Access>, gs: seq<Group>, i: int, z: Ptr) {
    forall p {:trigger Holds(gs, i, p)} :: Holds(gs, i, p) ==> Chained(o, h, p, z) && Chained(o, h, z, p)
  }

  /** A set that is hit is chained to the new pointer. */
  lemma HitAround(o: Oracle, h: seq<Access>, st: State, loc: Loc, i: nat)
    requires Symmetric(o) && AllChained(o, h + [Touch(loc)], st.groups) && i < |st.groups|
    requires st.recs == After(o, h).st.recs && loc.p !in st.recs && Partition(st)
    requires AliasesPointer(o, st.recs, st.groups[i], loc)
    ensures Around(o, h + [Touch(loc)], st.groups, i, loc.p)
  {
    hide Chained, Partition, AliasesPointer, Meets, Symmetric;
    var h' := h + [Touch(loc)];
    HitExactly(o, st.recs, st.groups[i], loc);
    var m :| ToAsk(st.groups[i], m) && Meets(o, st.recs, m, loc);
    assert Holds(st.groups, i, m);
    HeldKnown(st, i, m);
    assert h'[..|h|] == h && h'[|h|] == Touch(loc);
    assert LinkAt(o, h', |h|, m, loc.p);
    ChainedLink(o, h', m, loc.p);
    forall p | Holds(st.groups, i, p) ensures Chained(o, h', p, loc.p) && Chained(o, h', loc.p, p) {
      ChainedTrans(o, h', p, m, loc.p);
      ChainedTrans(o, h', loc.p, m, p);
    }
  }

  lemma HeldKnown(st: State, i: int, p: Ptr)
    requires Partition(st) && Holds(st.groups, i, p)
    ensures p in st.recs
  {
  }

  lemma MergeAround(o: Oracle, h: seq<Access>, st: State, i: nat, j: nat, z: Ptr)
    requires AllChained(o, h, st.groups) && i < |st.groups| && j < |st.groups| && i != j
    requires Around(o, h, st.groups, i, z) && Around(o, h, st.groups, j, z)
    ensures AllChained(o, h, MergeSetIn(o, st, i, j).groups) && Around(o, h, MergeSetIn(o, st, i, j).groups, i, z)
  {
    hide Chained;
    var gs, gs' := st.groups, MergeSetIn(o, st, i, j).groups;
    forall x, p ensures Holds(gs', x, p) <==> if x == i then Holds(gs, i, p) || Holds(gs, j, p) else x != j && Holds(gs, x, p) {
      MergeHolds(o, st, i, j, x, p);
    }
    hide Holds, MergeSetIn;
    forall x, p, q | Holds(gs', x, p) && Holds(gs', x, q) ensures Chained(o, h, p, q) {
      if x == i {
        ChainedTrans(o, h, p, z, q);
      } else {
        assert Holds(gs, x, p) && Holds(gs, x, q);
      }
    }
  }

  lemma {:induction false} FindChained(o: Oracle, h: seq<Access>, st: State, loc: Loc, k: nat, found: int)
    requires Symmetric(o) && k <= |st.groups| && -1 <= found < k && Partition(st)
    requires AllChained(o, h + [Touch(loc)], st.groups) && st.recs == After(o, h).st.recs && loc.p !in st.recs
    requires found != -1 ==> Around(o, h + [Touch(loc)], st.groups, found, loc.p)
    ensures var f := FindFrom(o, st, loc, k, found);
            && Partition(f.st) && AllChained(o, h + [Touch(loc)], f.st.groups)
            && (f.at != -1 ==> Around(o, h + [Touch(loc)], f.st.groups, f.at, loc.p))
    decreases |st.groups| - k
  {
    hide AllChained, Around, AliasesPointer, Partition, Symmetric, MergeSetIn;
    if k < |st.groups| {
      if !AliasesPointer(o, st.recs, st.groups[k], loc) {
        FindChained(o, h, st, loc, k + 1, found);
      } else {
        HitAround(o, h, st, loc, k);
        if found == -1 {
          FindChained(o, h, st, loc, k + 1, k);
        } else {
          MergeAround(o, h + [Touch(loc)], st, found, k, loc.p);
          MergePartition(o, st, found, k);
          MergeCount(o, st, found, k);
          FindChained(o, h, MergeSetIn(o, st, found, k), loc, k + 1, found);
        }
      }
    }
  }

  lemma AddedChained(o: Oracle, h: seq<Access>, st: State, i: nat, loc: Loc, known: bool)
    requires AllChained(o, h, st.groups) && i < |st.groups| && Around(o, h, st.groups, i, loc.p)
    ensures AllChained(o, h, AddPointer(o, st, i, loc, known).groups)
  {
    hide Chained, Holds, AddPointer;
    var gs, gs' := st.groups, AddPointer(o, st, i, loc, known).groups;
    AddedHoldsAll(o, st, i, loc, known);
    ChainedSelf(o, h, loc.p);
    forall x, p, q | Holds(gs', x, p) && Holds(gs', x, q) ensures Chained(o, h, p, q) {
      if Holds(gs, x, p) && Holds(gs, x, q) {
      } else if Holds(gs, x, p) {
        assert x == i && q == loc.p;
      } else if Holds(gs, x, q) {
        assert x == i && p == loc.p;
      }
    }
  }

  lemma NewSetChained(o: Oracle, h: seq<Access>, st: State, z: Ptr)
    requires AllChained(o, h, st.groups)
    ensures AllChained(o, h, WithNewSet(st).groups) && Around(o, h, WithNewSet(st).groups, |st.groups|, z)
  {
    hide Chained;
    NewSetHolds(st);
  }

  /** One more access keeps all sets chained, whatever the oracle, as long as it is symmetric. */
  lemma TouchChained(o: Oracle, h: seq<Access>, loc: Loc)
    requires Symmetric(o) && Partition(After(o, h).st) && AllChained(o, h, After(o, h).st.groups)
    ensures Partition(After(o, h + [Touch(loc)]).st) && AllChained(o, h + [Touch(loc)], After(o, h + [Touch(loc)]).st.groups)
  {
    hide AllChained, Around, Partition, Symmetric, FindFrom, AddPointer, WithNewSet;
    var st, h' := After(o, h).st, h + [Touch(loc)];
    AllChainedLater(o, h, Touch(loc), st.groups);
    assert h'[..|h|] == h;
    assert After(o, h').st == Add(o, st, loc);
    if loc.p in st.recs {
      SamePartition(st, Add(o, st, loc));
    } else {
      FindChained(o, h, st, loc, 0, -1);
      var f := FindSetForPointer(o, st, loc);
      if f.at != -1 {
        AddedChained(o, h', f.st, f.at, loc, false);
        AddedPartition(o, f.st, f.at, loc, false);
      } else {
        NewSetChained(o, h', f.st, loc.p);
        NewSetPartition(f.st);
        NewSetCount(f.st);
        AddedChained(o, h', WithNewSet(f.st), |f.st.groups|, loc, false);
        AddedPartition(o, WithNewSet(f.st), |f.st.groups|, loc, false);
      }
    }
  }

  lemma NewSetCount(st: State)
    ensures WithNewSet(st) == st.(groups := st.groups + [Group([], true)])
  {
  }

  lemma CopyChained(o: Oracle, h: seq<Access>, f: Ptr, t: Ptr)
    requires Partition(After(o, h).st) && AllChained(o, h, After(o, h).st.groups)
    ensures Partition(After(o, h + [Clone(f, t)]).st) && AllChained(o, h + [Clone(f, t)], After(o, h + [Clone(f, t)]).st.groups)
  {
    hide AllChained, Around, Partition, AddPointer;
    var st, h' := After(o, h).st, h + [Clone(f, t)];
    AllChainedLater(o, h, Clone(f, t), st.groups);
    assert h'[..|h|] == h && h'[|h|] == Clone(f, t);
    assert After(o, h').st == Copy(o, st, f, t);
    var i := SetOf(st.groups, f);
    if f in st.recs && t !in st.recs && i < |st.groups| {
      assert LinkAt(o, h', |h|, f, t);
      ChainedLink(o, h', f, t);
      assert Holds(st.groups, i, f);
      AroundMember(o, h', st.groups, i, f, t);
      AddedChained(o, h', st, i, At(st.recs, f).(p := t), true);
      AddedPartition(o, st, i, At(st.recs, f).(p := t), true);
    }
  }

  lemma AroundMember(o: Oracle, h: seq<Access>, gs: seq<Group>, i: int, m: Ptr, z: Ptr)
    requires AllChained(o, h, gs) && Holds(gs, i, m) && Chained(o, h, m, z) && Chained(o, h, z, m)
    ensures Around(o, h, gs, i, z)
  {
    hide Chained, Holds;
    forall p | Holds(gs, i, p) ensures Chained(o, h, p, z) && Chained(o, h, z, p) {
      ChainedTrans(o, h, p, m, z);
      ChainedTrans(o, h, z, m, p);
    }
  }

  /** After every history, two pointers share a set only if a chain links them of which each pointer met the next, or is a
      copy of it, when the later of the two was new. */
  lemma {:induction false} SharedIsChained(o: Oracle, h: seq<Access>)
    requires Symmetric(o)
    ensures Partition(After(o, h).st) && AllChained(o, h, After(o, h).st.groups)
    decreases |h|
  {
    hide AllChained, Partition, Symmetric;
    if h == [] {
      NoSetsChained(o);
    } else {
      var before, a := h[..|h| - 1], h[|h| - 1];
      SharedIsChained(o, before);
      assert before + [a] == h;
      match a
      case Touch(loc) => TouchChained(o, before, loc);
      case Clone(f, t) => CopyChained(o, before, f, t);
    }
  }

  lemma NoSetsChained(o: Oracle)
    ensures Partition(After(o, []).st) && AllChained(o, [], After(o, []).st.groups)
  {
  }

  // ----- Sets that are one address -----

  /** Of two accesses the oracle can tell whether they are the same address. */
  ghost predicate Decisive(o: Oracle) { forall a, b {:trigger o(a, b)} :: o(a, b) in {NoAlias, MustAlias} }

  ghost predicate AllMust(gs: seq<Group>) { forall i {:trigger gs[i]} :: 0 <= i < |gs| ==> gs[i].must }

  /** With one tag in use, two sets at one address would be one set. */
  lemma OneSetHit(o: Oracle, r: Run, tag: Tag, i: nat, j: nat, loc: Loc)
    requires Lawful(o) && Decisive(o) && Inv(o, r, {tag}) && i < |r.st.groups| && j < |r.st.groups| && i != j
    requires AllMust(r.st.groups) && loc.tag == tag
    requires AliasesPointer(o, r.st.recs, r.st.groups[i], loc)
    ensures !AliasesPointer(o, r.st.recs, r.st.groups[j], loc)
  {
    hide Lawful, Same, Partition, AllAnswer, Vouched, Disjoint, Decisive;
    if AliasesPointer(o, r.st.recs, r.st.groups[j], loc) {
      var p, q := r.st.groups[i].ptrs[0], r.st.groups[j].ptrs[0];
      assert Holds(r.st.groups, i, p) && Holds(r.st.groups, j, q);
      BothMust(o, At(r.st.recs, p), At(r.st.recs, q), loc);
      MemberKnown(r, {tag}, i, p);
      MemberKnown(r, {tag}, j, q);
      FewTags(tag);
      RecordsApart(o, r, {tag}, i, p, j, q);
      DifferentTags(o, At(r.st.recs, p), At(r.st.recs, q));
    }
  }

  lemma BothMust(o: Oracle, a: Loc, b: Loc, c: Loc)
    requires Lawful(o) && Decisive(o) && o(a, c) != NoAlias && o(b, c) != NoAlias
    ensures Same(o, a.p, b.p) && a.size > 0 && b.size > 0
  {
    hide Same;
    assert o(a, c) == MustAlias && o(b, c) == MustAlias;
    MustIsSame(o, a, c);
    MustIsSame(o, b, c);
    SameTrans(o, b.p, c.p, c.p);
    SameTrans(o, a.p, c.p, b.p);
  }

  lemma FewTags(tag: Tag)
    ensures !ThreeTags({tag})
  {
  }

  /** Nothing is merged. */
  lemma {:induction false} FindMust(o: Oracle, r: Run, tag: Tag, loc: Loc, k: nat, found: int)
    requires Lawful(o) && Decisive(o) && Inv(o, r, {tag}) && AllMust(r.st.groups) && loc.tag == tag
    requires k <= |r.st.groups| && -1 <= found < k
    requires found != -1 ==> AliasesPointer(o, r.st.recs, r.st.groups[found], loc)
    ensures FindFrom(o, r.st, loc, k, found).st == r.st
    ensures var f := FindFrom(o, r.st, loc, k, found); f.at != -1 ==> AliasesPointer(o, r.st.recs, r.st.groups[f.at], loc)
    decreases |r.st.groups| - k
  {
    hide Lawful, Decisive, Inv, AllMust, AliasesPointer;
    if k < |r.st.groups| {
      if found != -1 { OneSetHit(o, r, tag, found, k, loc); }
      FindMust(o, r, tag, loc, k + 1, if found == -1 && AliasesPointer(o, r.st.recs, r.st.groups[k], loc) then k else found);
    }
  }

  lemma TouchMust(o: Oracle, r: Run, tag: Tag, loc: Loc)
    requires Lawful(o) && Decisive(o) && Inv(o, r, {tag}) && AllMust(r.st.groups) && loc.tag == tag
    ensures AllMust(Add(o, r.st, loc).groups)
  {
    hide Lawful, Inv, FindFrom;
    if loc.p !in r.st.recs {
      FindMust(o, r, tag, loc, 0, -1);
      var f := FindSetForPointer(o, r.st, loc);
      if f.at != -1 {
        assert r.st.groups[f.at].must;
        assert o(At(r.st.recs, r.st.groups[f.at].ptrs[0]), loc) == MustAlias;
      }
    }
  }

  /** If the oracle is decisive and one tag is in use, every set stays a must-alias set. */
  lemma {:induction false} MustStays(o: Oracle, h: seq<Access>, tag: Tag)
    requires Lawful(o) && Decisive(o) && History(o, h) && TagsFrom(h, {tag})
    ensures AllMust(After(o, h).st.groups)
    decreases |h|
  {
    hide Lawful, Decisive, Legal, Add, ThreeTags;
    if h != [] {
      var before := h[..|h| - 1];
      assert TagsFrom(before, {tag}) by {
        forall i | 0 <= i < |before| && before[i].Touch? ensures before[i].loc.tag in {tag} { assert before[i] == h[i]; }
      }
      MustStays(o, before, tag);
      FewTags(tag);
      HistoryInv(o, before, {tag});
      match h[|h| - 1]
      case Touch(loc) => TouchMust(o, After(o, before), tag, loc);
      case Clone(f, t) => CopyMust(o, After(o, before).st, f, t);
    }
  }

  lemma CopyMust(o: Oracle, st: State, f: Ptr, t: Ptr)
    requires AllMust(st.groups)
    ensures AllMust(Copy(o, st, f, t).groups)
  {
  }
}
