/** The tracker itself: sets merged in place by forwarding, found again by following and shortening the chains. */
module AliasSetTracker {
  import A = AliasSets
  import opened AliasSetsProof
  import opened AliasSetsLinks

  /** forward is -1 for a set that is alive. Chains lead to earlier sets. */
  datatype AliasSet = AliasSet(forward: int, ptrs: seq<A.Ptr>, must: bool)

  datatype PointerRec = PointerRec(rec: A.Rec, at: nat)

  ghost predicate WellForwarded(sets: seq<AliasSet>) {
    forall i {:trigger sets[i]} :: 0 <= i < |sets| ==> -1 <= sets[i].forward < i
  }

  /** The set that stands for set i. */
  ghost function Target(sets: seq<AliasSet>, i: nat): (t: nat)
    requires WellForwarded(sets) && i < |sets|
    ensures t <= i && sets[t].forward == -1
  {
    if sets[i].forward == -1 then i else Target(sets, sets[i].forward)
  }

  function GroupOf(s: AliasSet): A.Group { A.Group(s.ptrs, s.must) }

  function Groups(sets: seq<AliasSet>): (gs: seq<A.Group>)
    ensures |gs| == |sets| && forall i {:trigger gs[i]} :: 0 <= i < |sets| ==> gs[i] == GroupOf(sets[i])
  {
    seq(|sets|, i requires 0 <= i < |sets| => GroupOf(sets[i]))
  }

  function Recs(entries: map<A.Ptr, PointerRec>): map<A.Ptr, A.Rec> { map p | p in entries :: entries[p].rec }

  /** Exactly the sets that are alive have members. */
  ghost predicate AliveHaveMembers(sets: seq<AliasSet>) {
    forall i {:trigger sets[i]} :: 0 <= i < |sets| ==> (sets[i].forward == -1 <==> sets[i].ptrs != [])
  }

  /** Every record leads to the set that lists the pointer. */
  ghost predicate Placed(sets: seq<AliasSet>, entries: map<A.Ptr, PointerRec>)
    requires WellForwarded(sets)
  {
    forall p {:trigger p in entries} :: p in entries ==>
      entries[p].at < |sets| && p in sets[Target(sets, entries[p].at)].ptrs
  }

  ghost predicate Coupled(sets: seq<AliasSet>, entries: map<A.Ptr, PointerRec>) {
    && WellForwarded(sets) && AliveHaveMembers(sets) && Placed(sets, entries)
    && A.Partition(A.State(Groups(sets), Recs(entries)))
  }

  /** The same sets, with chains that may be shorter. */
  ghost predicate Shortened(a: seq<AliasSet>, b: seq<AliasSet>) {
    && |a| == |b| && WellForwarded(a) && WellForwarded(b)
    && forall x {:trigger a[x]} {:trigger b[x]} :: 0 <= x < |a| ==>
         a[x].(forward := b[x].forward) == b[x] && (a[x].forward == -1 <==> b[x].forward == -1)
         && Target(a, x) == Target(b, x)
  }

  lemma ShortenedTrans(a: seq<AliasSet>, b: seq<AliasSet>, c: seq<AliasSet>)
    requires Shortened(a, b) && Shortened(b, c)
    ensures Shortened(a, c)
  {
    forall x | 0 <= x < |a|
      ensures a[x].(forward := c[x].forward) == c[x] && (a[x].forward == -1 <==> c[x].forward == -1)
      ensures Target(a, x) == Target(c, x)
    {
      assert a[x].(forward := b[x].forward) == b[x];
    }
  }

  lemma ShortenedTarget(a: seq<AliasSet>, b: seq<AliasSet>, x: nat)
    requires Shortened(a, b) && x < |a|
    ensures Target(a, x) == Target(b, x)
  {
    assert a[x].(forward := b[x].forward) == b[x];
  }

  lemma ShortenedCoupled(a: seq<AliasSet>, b: seq<AliasSet>, entries: map<A.Ptr, PointerRec>)
    requires Coupled(a, entries) && Shortened(a, b)
    ensures Coupled(b, entries) && Groups(a) == Groups(b)
  {
    hide A.Partition;
    forall x | 0 <= x < |a| ensures GroupOf(a[x]) == GroupOf(b[x]) {
      assert a[x].(forward := b[x].forward) == b[x];
    }
    assert Groups(a) == Groups(b);
    forall p | p in entries ensures entries[p].at < |b| && p in b[Target(b, entries[p].at)].ptrs {
      var t := Target(a, entries[p].at);
      assert a[entries[p].at].forward == -1 <==> b[entries[p].at].forward == -1;
      assert GroupOf(a[t]) == GroupOf(b[t]);
    }
  }

  /** Pointing a set straight at its target changes no target. */
  lemma {:induction false} CompressTarget(a: seq<AliasSet>, i: nat, x: nat)
    requires WellForwarded(a) && i < |a| && a[i].forward != -1 && x < |a|
    requires WellForwarded(a[i := a[i].(forward := Target(a, i))])
    ensures Target(a[i := a[i].(forward := Target(a, i))], x) == Target(a, x)
    decreases x
  {
    var b := a[i := a[i].(forward := Target(a, i))];
    if x == i {
      assert Target(a, i) < i;
      CompressTarget(a, i, Target(a, i));
    } else if a[x].forward != -1 {
      CompressTarget(a, i, a[x].forward);
    }
  }

  lemma Compress(a: seq<AliasSet>, i: nat)
    requires WellForwarded(a) && i < |a| && a[i].forward != -1
    ensures Shortened(a, a[i := a[i].(forward := Target(a, i))])
  {
    var b := a[i := a[i].(forward := Target(a, i))];
    assert Target(a, i) == Target(a, a[i].forward);
    forall x | 0 <= x < |a|
      ensures a[x].(forward := b[x].forward) == b[x] && (a[x].forward == -1 <==> b[x].forward == -1)
      ensures Target(a, x) == Target(b, x)
    {
      CompressTarget(a, i, x);
    }
  }

  /** Set j forwards to set i. */
  function Merged(a: seq<AliasSet>, i: nat, j: nat, must: bool): seq<AliasSet>
    requires i < |a| && j < |a| && i != j
  {
    a[i := AliasSet(a[i].forward, a[i].ptrs + a[j].ptrs, must)][j := AliasSet(i, [], a[j].must)]
  }

  lemma {:induction false} MergedTarget(a: seq<AliasSet>, i: nat, j: nat, must: bool, x: nat)
    requires WellForwarded(a) && i < j < |a| && a[i].forward == -1 && a[j].forward == -1 && x < |a|
    requires WellForwarded(Merged(a, i, j, must))
    ensures Target(Merged(a, i, j, must), x) == if Target(a, x) == j then i else Target(a, x)
    decreases x
  {
    var b := Merged(a, i, j, must);
    assert b[x].forward == if x == j then i else a[x].forward;
    if x == j {
      assert b[i].forward == -1;
    } else if a[x].forward != -1 {
      MergedTarget(a, i, j, must, a[x].forward);
    }
  }

  lemma MergedCoupled(o: A.Oracle, a: seq<AliasSet>, entries: map<A.Ptr, PointerRec>, i: nat, j: nat)
    requires Coupled(a, entries) && i < j < |a| && a[i].forward == -1 && a[j].forward == -1
    ensures var st := A.State(Groups(a), Recs(entries)); var st' := A.MergeSetIn(o, st, i, j);
            var b := Merged(a, i, j, st'.groups[i].must);
            Coupled(b, entries) && Groups(b) == st'.groups && b[i].forward == -1 && st'.recs == st.recs
  {
    hide A.Partition;
    var st := A.State(Groups(a), Recs(entries));
    var st' := A.MergeSetIn(o, st, i, j);
    var must := st'.groups[i].must;
    var b := Merged(a, i, j, must);
    MergePartition(o, st, i, j);
    assert Groups(b) == st'.groups;
    assert WellForwarded(b);
    forall p | p in entries ensures entries[p].at < |b| && p in b[Target(b, entries[p].at)].ptrs {
      MergedTarget(a, i, j, must, entries[p].at);
    }
  }

  lemma AppendCoupled(a: seq<AliasSet>, entries: map<A.Ptr, PointerRec>)
    requires WellForwarded(a)
    ensures var b := a + [AliasSet(-1, [], true)];
            && WellForwarded(b) && Groups(b) == Groups(a) + [A.Group([], true)]
            && (Placed(a, entries) ==> Placed(b, entries))
  {
    var b := a + [AliasSet(-1, [], true)];
    assert WellForwarded(b);
    assert Groups(b) == Groups(a) + [A.Group([], true)];
    if Placed(a, entries) {
      forall p | p in entries ensures entries[p].at < |b| && p in b[Target(b, entries[p].at)].ptrs {
        SamePrefix(a, b, entries[p].at);
      }
    }
  }

  lemma {:induction false} SamePrefix(a: seq<AliasSet>, b: seq<AliasSet>, x: nat)
    requires WellForwarded(a) && WellForwarded(b) && x < |a| <= |b|
    requires forall y {:trigger a[y]} {:trigger b[y]} :: 0 <= y < |a| ==> b[y].forward == a[y].forward
    ensures Target(b, x) == Target(a, x)
    decreases x
  {
    assert b[x].forward == a[x].forward;
    if a[x].forward != -1 { SamePrefix(a, b, a[x].forward); }
  }

  class Tracker {
    const oracle: A.Oracle
    var Sets: seq<AliasSet>
    var PointerMap: map<A.Ptr, PointerRec>
    /** What has been asked of the tracker so far. */
    ghost var Trace: seq<A.Access>

    constructor (o: A.Oracle)
      ensures oracle == o && Trace == [] && Valid()
    {
      oracle, Sets, PointerMap, Trace := o, [], map[], [];
      assert Recs(map[]) == map[];
    }

    function State(): A.State
      reads this
    {
      A.State(Groups(Sets), Recs(PointerMap))
    }

    /** The sets are what the history makes them, and the chains lead where they should. */
    ghost predicate Valid()
      reads this
    {
      Coupled(Sets, PointerMap) && State() == A.After(oracle, Trace).st
    }

    predicate Alive(i: nat)
      reads this
    {
      i < |Sets| && Sets[i].forward == -1
    }

    method GetForwardedTarget(i: nat) returns (t: nat)
      requires WellForwarded(Sets) && i < |Sets|
      modifies `Sets
      ensures Shortened(old(Sets), Sets) && t == Target(Sets, i)
      decreases i
    {
      if Sets[i].forward == -1 {
        return i;
      }
      var dest := GetForwardedTarget(Sets[i].forward);
      ghost var sets := Sets;
      t := dest;
      assert old(Sets)[i].forward != -1;
      if dest != Sets[i].forward {
        Sets := Sets[i := Sets[i].(forward := dest)];
        Shortcut(old(Sets), sets, i, dest);
      } else {
        assert Sets[i].forward != -1;
      }
    }

    /** The set that lists p now; the record of p is moved there. */
    method GetAliasSet(p: A.Ptr) returns (t: nat)
      requires Coupled(Sets, PointerMap) && p in PointerMap
      modifies `Sets, `PointerMap
      ensures Coupled(Sets, PointerMap) && State() == old(State()) && Alive(t) && p in Sets[t].ptrs
      ensures PointerMap.Keys == old(PointerMap).Keys && forall q :: q in PointerMap ==> PointerMap[q].rec == old(PointerMap)[q].rec
    {
      hide A.Partition, AliveHaveMembers, Recs, Shortened;
      t := GetForwardedTarget(PointerMap[p].at);
      ShortenedCoupled(old(Sets), Sets, PointerMap);
      ShortenedTarget(old(Sets), Sets, PointerMap[p].at);
      MovedCoupled(Sets, PointerMap, p, t);
      PointerMap := PointerMap[p := PointerMap[p].(at := t)];
    }

    method AliasesPointer(i: nat, loc: A.Loc) returns (yes: bool)
      requires Coupled(Sets, PointerMap) && Alive(i)
      ensures yes == A.AliasesPointer(oracle, State().recs, State().groups[i], loc)
    {
      hide A.Partition;
      ghost var g := State().groups[i];
      assert Sets[i].ptrs != [] && g == GroupOf(Sets[i]);
      KnownMembers(Sets, PointerMap, i);
      if Sets[i].must {
        return oracle(A.At(Recs(PointerMap), Sets[i].ptrs[0]), loc) != A.NoAlias;
      }
      for k := 0 to |Sets[i].ptrs|
        invariant forall j :: 0 <= j < k ==> oracle(loc, A.At(Recs(PointerMap), Sets[i].ptrs[j])) == A.NoAlias
      {
        var p := Sets[i].ptrs[k];
        if oracle(loc, A.At(Recs(PointerMap), p)) != A.NoAlias {
          assert p in g.ptrs;
          return true;
        }
      }
      yes := false;
    }

    /** Merge set j into set i, and let it forward there. */
    method MergeSetIn(i: nat, j: nat)
      requires Coupled(Sets, PointerMap) && Alive(i) && Alive(j) && i < j
      modifies `Sets
      ensures Coupled(Sets, PointerMap) && State() == A.MergeSetIn(oracle, old(State()), i, j) && Alive(i)
    {
      hide A.Partition;
      ghost var sets := Sets;
      assert Sets[i].ptrs != [] && Sets[j].ptrs != [];
      assert State().groups[i] == GroupOf(Sets[i]) && State().groups[j] == GroupOf(Sets[j]);
      var must := Sets[i].must && Sets[j].must;
      if must {
        // Two must-alias sets make one only if any of their members must alias
        must := oracle(A.At(Recs(PointerMap), Sets[i].ptrs[0]), A.At(Recs(PointerMap), Sets[j].ptrs[0])) == A.MustAlias;
      }
      MergedCoupled(oracle, Sets, PointerMap, i, j);
      Sets := Merged(Sets, i, j, must);
    }

    /** The first set that aliases the location, with all others that do merged into it; -1 if there is none. */
    method FindAliasSetForPointer(loc: A.Loc) returns (found: int)
      requires Coupled(Sets, PointerMap)
      modifies `Sets
      ensures Coupled(Sets, PointerMap) && State() == A.FindSetForPointer(oracle, old(State()), loc).st
      ensures found == A.FindSetForPointer(oracle, old(State()), loc).at
      ensures found != -1 ==> found >= 0 && Alive(found)
    {
      hide A.Partition, A.AliasesPointer, A.MergeSetIn;
      found := -1;
      for k := 0 to |Sets|
        invariant |Sets| == old(|Sets|) && -1 <= found < k
        invariant Coupled(Sets, PointerMap) && (found != -1 ==> Alive(found))
        invariant A.FindFrom(oracle, old(State()), loc, 0, -1) == A.FindFrom(oracle, State(), loc, k, found)
      {
        if Sets[k].forward == -1 {
          var hit := AliasesPointer(k, loc);
          if hit {
            if found == -1 {
              found := k;
            } else {
              MergeSetIn(found, k);
            }
          }
        } else {
          Forwarded(oracle, State().recs, Sets, k, loc);
        }
      }
    }

    /** Put a pointer that is in no set into set i, which may be new and empty. */
    method AddPointer(i: nat, loc: A.Loc, knownMustAlias: bool)
      requires Open(Sets, PointerMap, i) && loc.p !in PointerMap
      requires knownMustAlias || Sets[i].ptrs == [] || Hit(oracle, State(), i, loc)
      modifies `Sets, `PointerMap
      ensures Coupled(Sets, PointerMap) && Alive(i) && loc.p in Sets[i].ptrs
      ensures State() == A.AddPointer(oracle, old(State()), i, loc, knownMustAlias)
    {
      hide A.Partition, A.Rec.Update, Placed, OthersHaveMembers;
      var must := Sets[i].must;
      assert State().groups[i] == GroupOf(Sets[i]);
      var entries := PointerMap;
      if must && !knownMustAlias && Sets[i].ptrs != [] {
        var first := Sets[i].ptrs[0];
        KnownMembers(Sets, PointerMap, i);
        var result := oracle(A.At(Recs(PointerMap), first), loc);
        if result != A.MustAlias {
          must := false;
        } else {
          // The first member of a must-alias set must have the largest size
          entries := entries[first := entries[first].(rec := entries[first].rec.Update(loc.size, loc.tag))];
        }
        assert result != A.NoAlias;
      }
      AddedState(oracle, Sets, PointerMap, entries, i, loc, knownMustAlias, must);
      entries := entries[loc.p := PointerRec(A.NEW_REC.Update(loc.size, loc.tag), i)];
      Sets := Sets[i := AliasSet(-1, Sets[i].ptrs + [loc.p], must)];
      PointerMap := entries;
    }

    /** The set for a location: the pointer's own if it is known, the one it aliases, or a new one. */
    method GetAliasSetForPointer(loc: A.Loc) returns (t: nat, isNew: bool)
      requires Valid()
      modifies this
      ensures Valid() && Trace == old(Trace) + [A.Touch(loc)] && Alive(t) && loc.p in Sets[t].ptrs
      ensures State() == A.Add(oracle, old(State()), loc)
      ensures isNew <==> loc.p !in old(State()).recs && A.FindSetForPointer(oracle, old(State()), loc).at == -1
      ensures A.Symmetric(oracle) ==> (isNew <==> loc.p !in old(State()).recs && NobodyMeets(oracle, old(State()), loc))
    {
      hide A.Partition, A.FindSetForPointer, Hit, A.AddPointer, Open, A.After, NobodyMeets, A.Symmetric;
      isNew := false;
      NewOrNot(oracle, State(), loc);
      TraceStep(oracle, Trace, A.Touch(loc));
      Trace := Trace + [A.Touch(loc)];
      if loc.p in PointerMap {
        t := Update(loc);
        return;
      }
      FoundHit(oracle, State(), loc);
      var found := FindAliasSetForPointer(loc);
      if found != -1 {
        CoupledIsOpen(Sets, PointerMap, found);
        AddPointer(found, loc, false);
        t := found;
      } else {
        isNew := true;
        t := |Sets|;
        AppendOpen(Sets, PointerMap);
        Sets := Sets + [AliasSet(-1, [], true)];
        AddPointer(t, loc, false);
      }
    }

    /** A known pointer takes the new size and tag, and answers with its set. */
    method Update(loc: A.Loc) returns (t: nat)
      requires Coupled(Sets, PointerMap) && loc.p in PointerMap
      modifies `Sets, `PointerMap
      ensures Coupled(Sets, PointerMap) && State() == A.Add(oracle, old(State()), loc)
      ensures Alive(t) && loc.p in Sets[t].ptrs
    {
      hide A.Partition, A.Rec.Update, AliveHaveMembers;
      ghost var entries := PointerMap;
      PointerMap := PointerMap[loc.p := PointerMap[loc.p].(rec := PointerMap[loc.p].rec.Update(loc.size, loc.tag))];
      UpdatedCoupled(Sets, entries, loc.p, PointerMap[loc.p].rec);
      t := GetAliasSet(loc.p);
    }

    /** A pointer that is a copy of a known one goes to the same set, unless it is known itself. */
    method CopyValue(source: A.Ptr, to: A.Ptr)
      requires Valid()
      modifies this
      ensures Valid() && Trace == old(Trace) + [A.Clone(source, to)]
      ensures State() == A.Copy(oracle, old(State()), source, to)
    {
      hide A.Partition, A.AddPointer, Open, A.SetOf, A.After;
      TraceStep(oracle, Trace, A.Clone(source, to));
      Trace := Trace + [A.Clone(source, to)];
      if source !in PointerMap || to in PointerMap {
        return;
      }
      var t := GetAliasSet(source);
      CoupledIsOpen(Sets, PointerMap, t);
      Located(Sets, PointerMap, t, source);
      AddPointer(t, A.At(Recs(PointerMap), source).(p := to), true);
    }

    /** Pointers of one set are linked by aliases and copies alone. */
    lemma MembersChained(i: nat, p: A.Ptr, q: A.Ptr)
      requires Valid() && A.Symmetric(oracle) && Alive(i) && p in Sets[i].ptrs && q in Sets[i].ptrs
      ensures Chained(oracle, Trace, p, q)
    {
      hide A.Partition, A.After, Chained, A.Symmetric;
      SharedIsChained(oracle, Trace);
      assert Groups(Sets)[i] == GroupOf(Sets[i]);
      assert A.Holds(Groups(Sets), i, p) && A.Holds(Groups(Sets), i, q);
    }

    /** While no three tags are in use, sets that are alive do not alias. */
    lemma LiveSetsDisjoint(tags: set<A.Tag>, i: nat, p: A.Ptr, j: nat, q: A.Ptr)
      requires Valid() && A.Lawful(oracle) && A.History(oracle, Trace) && A.TagsFrom(Trace, tags) && !A.ThreeTags(tags)
      requires Alive(i) && Alive(j) && i != j && p in Sets[i].ptrs && q in Sets[j].ptrs
      ensures var own := A.After(oracle, Trace).own;
              p in own && q in own && A.Apart(oracle, own[p], own[q])
      ensures p in PointerMap && q in PointerMap
      ensures i == Target(Sets, PointerMap[p].at) && j == Target(Sets, PointerMap[q].at)
    {
      hide A.Partition, A.Lawful, A.History, A.After;
      HistoryInv(oracle, Trace, tags);
      InvKeys(oracle, A.After(oracle, Trace), tags);
      assert Groups(Sets)[i] == GroupOf(Sets[i]) && Groups(Sets)[j] == GroupOf(Sets[j]);
      assert A.Holds(Groups(Sets), i, p) && A.Holds(Groups(Sets), j, q);
      HeldOnce(Sets, PointerMap, i, p);
      HeldOnce(Sets, PointerMap, j, q);
    }
  }

  // ----- What the methods rely on -----

  /** No member that must be asked meets the location. */
  ghost predicate NobodyMeets(o: A.Oracle, st: A.State, loc: A.Loc) {
    forall i, p {:trigger ToAsk(st.groups[i], p)} :: 0 <= i < |st.groups| && ToAsk(st.groups[i], p) ==> !Meets(o, st.recs, p, loc)
  }

  lemma NewOrNot(o: A.Oracle, st: A.State, loc: A.Loc)
    ensures A.Symmetric(o) ==> (A.FindSetForPointer(o, st, loc).at == -1 <==> NobodyMeets(o, st, loc))
  {
    hide A.FindSetForPointer, A.Symmetric;
    if A.Symmetric(o) { NewExactly(o, st, loc); }
  }

  lemma HeldOnce(sets: seq<AliasSet>, entries: map<A.Ptr, PointerRec>, i: nat, p: A.Ptr)
    requires Coupled(sets, entries) && A.Holds(Groups(sets), i, p)
    ensures p in entries && i == Target(sets, entries[p].at)
  {
    var st := A.State(Groups(sets), Recs(entries));
    assert p in st.recs;
    var t := Target(sets, entries[p].at);
    assert st.groups[t] == GroupOf(sets[t]);
    assert A.Holds(Groups(sets), t, p);
  }

  lemma TraceStep(o: A.Oracle, h: seq<A.Access>, a: A.Access)
    ensures A.After(o, h + [a]) == A.Step(o, A.After(o, h), a)
  {
    assert (h + [a])[..|h|] == h;
  }

  /** The set has members, and if they are one address, that address may alias the location. */
  ghost predicate Hit(o: A.Oracle, st: A.State, i: int, loc: A.Loc) {
    && 0 <= i < |st.groups| && st.groups[i].ptrs != []
    && (st.groups[i].must ==> o(A.At(st.recs, st.groups[i].ptrs[0]), loc) != A.NoAlias)
  }

  lemma {:induction false} FoundFromHit(o: A.Oracle, st: A.State, loc: A.Loc, k: nat, found: int)
    requires k <= |st.groups| && -1 <= found < k && (found != -1 ==> Hit(o, st, found, loc))
    ensures var f := A.FindFrom(o, st, loc, k, found);
            f.at != -1 ==> Hit(o, f.st, f.at, loc)
    decreases |st.groups| - k
  {
    if k < |st.groups| {
      if !A.AliasesPointer(o, st.recs, st.groups[k], loc) {
        FoundFromHit(o, st, loc, k + 1, found);
      } else if found == -1 {
        FoundFromHit(o, st, loc, k + 1, k);
      } else {
        FoundFromHit(o, A.MergeSetIn(o, st, found, k), loc, k + 1, found);
      }
    }
  }

  lemma FoundHit(o: A.Oracle, st: A.State, loc: A.Loc)
    ensures var f := A.FindSetForPointer(o, st, loc);
            f.at != -1 ==> Hit(o, f.st, f.at, loc)
  {
    FoundFromHit(o, st, loc, 0, -1);
  }

  ghost predicate OthersHaveMembers(sets: seq<AliasSet>, i: nat) {
    forall k {:trigger sets[k]} :: 0 <= k < |sets| && k != i ==> (sets[k].forward == -1 <==> sets[k].ptrs != [])
  }

  /** Ready for a new member of set i. */
  ghost predicate Open(sets: seq<AliasSet>, entries: map<A.Ptr, PointerRec>, i: nat) {
    && WellForwarded(sets) && i < |sets| && sets[i].forward == -1 && OthersHaveMembers(sets, i)
    && Placed(sets, entries) && A.Partition(A.State(Groups(sets), Recs(entries)))
  }

  lemma CoupledIsOpen(sets: seq<AliasSet>, entries: map<A.Ptr, PointerRec>, i: nat)
    requires Coupled(sets, entries) && i < |sets| && sets[i].forward == -1
    ensures Open(sets, entries, i)
  {
    hide A.Partition;
  }

  lemma AppendOpen(sets: seq<AliasSet>, entries: map<A.Ptr, PointerRec>)
    requires Coupled(sets, entries)
    ensures var b := sets + [AliasSet(-1, [], true)];
            Open(b, entries, |sets|) && Groups(b) == Groups(sets) + [A.Group([], true)]
  {
    hide A.Partition, Placed;
    AppendCoupled(sets, entries);
    NewSetPartition(A.State(Groups(sets), Recs(entries)));
  }

  /** Who the first member is, and whether it is asked about the location. */
  ghost predicate Asked(g: AliasSet, known: bool) { g.must && !known && g.ptrs != [] }

  ghost predicate Decided(o: A.Oracle, sets: seq<AliasSet>, entries: map<A.Ptr, PointerRec>,
                          grown: map<A.Ptr, PointerRec>, i: nat, loc: A.Loc, known: bool, must: bool)
    requires i < |sets|
  {
    var g := sets[i];
    if Asked(g, known) then
      && g.ptrs[0] in entries
      && var result := o(A.At(Recs(entries), g.ptrs[0]), loc);
      && must == (result == A.MustAlias)
      && grown == if must then entries[g.ptrs[0] := entries[g.ptrs[0]].(rec := entries[g.ptrs[0]].rec.Update(loc.size, loc.tag))]
                  else entries
    else must == g.must && grown == entries
  }

  lemma RecsUpdate(entries: map<A.Ptr, PointerRec>, p: A.Ptr, e: PointerRec)
    ensures Recs(entries[p := e]) == Recs(entries)[p := e.rec]
  {
  }

  lemma AddedGroups(o: A.Oracle, sets: seq<AliasSet>, entries: map<A.Ptr, PointerRec>, grown: map<A.Ptr, PointerRec>,
                    i: nat, loc: A.Loc, known: bool, must: bool)
    requires i < |sets| && loc.p !in entries && Decided(o, sets, entries, grown, i, loc, known, must)
    ensures var st := A.State(Groups(sets), Recs(entries)); var st' := A.AddPointer(o, st, i, loc, known);
            && Groups(sets[i := AliasSet(-1, sets[i].ptrs + [loc.p], must)]) == st'.groups
            && Recs(grown[loc.p := PointerRec(A.NEW_REC.Update(loc.size, loc.tag), i)]) == st'.recs
  {
    hide A.Rec.Update, Recs;
    var g := sets[i];
    assert Groups(sets)[i] == GroupOf(g);
    RecsUpdate(grown, loc.p, PointerRec(A.NEW_REC.Update(loc.size, loc.tag), i));
    if Asked(g, known) {
      RecsUpdate(entries, g.ptrs[0], entries[g.ptrs[0]].(rec := entries[g.ptrs[0]].rec.Update(loc.size, loc.tag)));
      RecsHave(entries, g.ptrs[0]);
    }
    RecsLack(entries, loc.p);
    assert Groups(sets[i := AliasSet(-1, g.ptrs + [loc.p], must)]) == Groups(sets)[i := A.Group(g.ptrs + [loc.p], must)];
  }

  lemma RecsHave(entries: map<A.Ptr, PointerRec>, p: A.Ptr)
    requires p in entries
    ensures p in Recs(entries) && Recs(entries)[p] == entries[p].rec
  {
  }

  lemma RecsLack(entries: map<A.Ptr, PointerRec>, p: A.Ptr)
    requires p !in entries
    ensures p !in Recs(entries)
  {
  }

  lemma AddedState(o: A.Oracle, sets: seq<AliasSet>, entries: map<A.Ptr, PointerRec>, grown: map<A.Ptr, PointerRec>,
                   i: nat, loc: A.Loc, known: bool, must: bool)
    requires Open(sets, entries, i) && loc.p !in entries && Decided(o, sets, entries, grown, i, loc, known, must)
    ensures var sets' := sets[i := AliasSet(-1, sets[i].ptrs + [loc.p], must)];
            var entries' := grown[loc.p := PointerRec(A.NEW_REC.Update(loc.size, loc.tag), i)];
            && Coupled(sets', entries')
            && A.State(Groups(sets'), Recs(entries')) == A.AddPointer(o, A.State(Groups(sets), Recs(entries)), i, loc, known)
  {
    hide A.Partition, A.Rec.Update, A.AddPointer, Groups, Recs, AliveHaveMembers, Placed, OthersHaveMembers;
    var sets' := sets[i := AliasSet(-1, sets[i].ptrs + [loc.p], must)];
    var entries' := grown[loc.p := PointerRec(A.NEW_REC.Update(loc.size, loc.tag), i)];
    AddedGroups(o, sets, entries, grown, i, loc, known, must);
    RecsLack(entries, loc.p);
    AddedPartition(o, A.State(Groups(sets), Recs(entries)), i, loc, known);
    AddedPlaced(sets, entries, sets', entries', i, loc.p);
  }

  lemma AddedPlaced(sets: seq<AliasSet>, entries: map<A.Ptr, PointerRec>, sets': seq<AliasSet>,
                    entries': map<A.Ptr, PointerRec>, i: nat, p: A.Ptr)
    requires WellForwarded(sets) && i < |sets| && sets[i].forward == -1 && OthersHaveMembers(sets, i)
    requires Placed(sets, entries) && |sets'| == |sets|
    requires sets' == sets[i := sets'[i]] && sets'[i].forward == -1 && sets'[i].ptrs == sets[i].ptrs + [p]
    requires forall q {:trigger q in entries'} :: q in entries' ==>
               (q in entries && entries'[q].at == entries[q].at) || (q == p && entries'[q].at == i)
    ensures WellForwarded(sets') && AliveHaveMembers(sets') && Placed(sets', entries')
  {
    forall q | q in entries' ensures entries'[q].at < |sets'| && q in sets'[Target(sets', entries'[q].at)].ptrs {
      if q in entries && entries'[q].at == entries[q].at { SamePrefix(sets, sets', entries[q].at); }
    }
  }

  lemma UpdatedCoupled(sets: seq<AliasSet>, entries: map<A.Ptr, PointerRec>, p: A.Ptr, rec: A.Rec)
    requires Coupled(sets, entries) && p in entries
    ensures Coupled(sets, entries[p := entries[p].(rec := rec)])
    ensures Recs(entries[p := entries[p].(rec := rec)]) == Recs(entries)[p := rec]
  {
    var entries' := entries[p := entries[p].(rec := rec)];
    assert Recs(entries') == Recs(entries)[p := rec];
    SamePartition(A.State(Groups(sets), Recs(entries)), A.State(Groups(sets), Recs(entries')));
  }

  /** The set that lists p is the one the specification finds. */
  lemma Located(sets: seq<AliasSet>, entries: map<A.Ptr, PointerRec>, t: nat, p: A.Ptr)
    requires Coupled(sets, entries) && t < |sets| && p in sets[t].ptrs
    ensures A.SetOf(Groups(sets), p) == t
  {
    var gs := Groups(sets);
    var i := A.SetOf(gs, p);
    assert gs[t] == GroupOf(sets[t]);
    assert A.Holds(gs, t, p);
    if i < |gs| { assert A.Holds(gs, i, p); }
  }

  /** A forwarding set aliases nothing. */
  lemma Forwarded(o: A.Oracle, recs: map<A.Ptr, A.Rec>, sets: seq<AliasSet>, k: nat, loc: A.Loc)
    requires AliveHaveMembers(sets) && k < |sets| && sets[k].forward != -1
    ensures !A.AliasesPointer(o, recs, Groups(sets)[k], loc)
  {
    assert Groups(sets)[k] == GroupOf(sets[k]);
  }

  lemma MovedCoupled(sets: seq<AliasSet>, entries: map<A.Ptr, PointerRec>, p: A.Ptr, t: nat)
    requires Coupled(sets, entries) && p in entries && t == Target(sets, entries[p].at)
    ensures Coupled(sets, entries[p := entries[p].(at := t)]) && Recs(entries[p := entries[p].(at := t)]) == Recs(entries)
    ensures sets[t].forward == -1 && p in sets[t].ptrs
  {
    hide A.Partition;
    var entries' := entries[p := entries[p].(at := t)];
    assert Recs(entries') == Recs(entries);
    forall q | q in entries' ensures entries'[q].at < |sets| && q in sets[Target(sets, entries'[q].at)].ptrs {
      assert q in entries;
    }
  }

  lemma KnownMembers(sets: seq<AliasSet>, entries: map<A.Ptr, PointerRec>, i: nat)
    requires A.Partition(A.State(Groups(sets), Recs(entries))) && i < |sets|
    ensures forall k {:trigger sets[i].ptrs[k]} :: 0 <= k < |sets[i].ptrs| ==> sets[i].ptrs[k] in entries
  {
    forall k | 0 <= k < |sets[i].ptrs| ensures sets[i].ptrs[k] in entries {
      assert A.Holds(Groups(sets), i, sets[i].ptrs[k]);
    }
  }

  lemma Shortcut(a: seq<AliasSet>, b: seq<AliasSet>, i: nat, dest: nat)
    requires Shortened(a, b) && i < |a| && a[i].forward != -1 && dest == Target(b, a[i].forward)
    ensures Shortened(a, b[i := b[i].(forward := dest)]) && dest == Target(b, i)
    ensures Target(b[i := b[i].(forward := dest)], i) == dest
  {
    assert a[i].forward == -1 <==> b[i].forward == -1;
    assert a[a[i].forward].forward == -1 <==> b[a[i].forward].forward == -1;
    assert Target(a, i) == Target(a, a[i].forward);
    Compress(b, i);
    var c := b[i := b[i].(forward := dest)];
    ShortenedTrans(a, b, c);
    assert b[i].forward == -1 <==> c[i].forward == -1;
  }
}
