/** How much the analysis gives away: edge facts are exact, joins stay within what holds all facts, the table of operators
    adds nothing that is not near a result, and so an answer is only as vague as its sources. */
module LviPrecision {
  import opened Options
  import opened ConstantRange
  import CR = ConstantRange
  import opened RangePrecision
  import opened Dominance
  import opened LviProgram
  import opened LviLattice
  import opened LviFacts
  import opened LviVisits

  // ----- Joins -----

  /** Everything the fact allows is in r. */
  predicate Within(r: Range, fact: LatticeVal) {
    match fact
    case Undefined => true
    case ConstantRange(s) => ContainsRange(r, s)
    case Overdefined => false
  }

  predicate AtMostHalf(r: Range) { r.Valid() && 2 * r.GetSetSize() <= r.m }

  lemma WithinAllows(r: Range, fact: LatticeVal, x: int)
    requires r.Valid() && fact.Fits(r.m) && Within(r, fact) && InWidth(x, r.m) && fact.Allows(x)
    ensures r.Contains(x)
  {
    ContainsRangeSound(r, fact.range, x);
  }

  lemma MergedWithin(r: Range, a: LatticeVal, b: LatticeVal)
    requires AtMostHalf(r) && a.Fits(r.m) && b.Fits(r.m) && Within(r, a) && Within(r, b)
    ensures Merged(a, b).Fits(r.m) && Within(r, Merged(a, b))
  {
    hide UnionWith, ContainsRange, Range.GetSetSize;
    if a.ConstantRange? && b.ConstantRange? {
      UnionWithin(a.range, b.range, r);
      NotFull(r, UnionWith(a.range, b.range));
      var v := AnyMember(a.range);
      UnionCovers(a.range, b.range, v);
    }
  }

  lemma NotFull(r: Range, s: Range)
    requires AtMostHalf(r) && s.Valid() && s.m == r.m && ContainsRange(r, s)
    ensures !s.IsFullSet()
  {
  }

  function MergeAll(facts: seq<LatticeVal>): LatticeVal {
    if facts == [] then Undefined else Merged(MergeAll(facts[..|facts| - 1]), facts[|facts| - 1])
  }

  ghost predicate AllWithin(r: Range, facts: seq<LatticeVal>) {
    forall i {:trigger facts[i]} :: 0 <= i < |facts| ==> facts[i].Fits(r.m) && Within(r, facts[i])
  }

  /** A join of any number of facts stays within every range of at most half of all values that holds them. */
  lemma {:induction false} MergeAllWithin(r: Range, facts: seq<LatticeVal>)
    requires AtMostHalf(r) && AllWithin(r, facts)
    ensures MergeAll(facts).Fits(r.m) && Within(r, MergeAll(facts))
    decreases |facts|
  {
    hide AtMostHalf, Within, Merged;
    if facts == [] {
      Nothing(r);
    } else {
      var init := facts[..|facts| - 1];
      assert forall i {:trigger init[i]} :: 0 <= i < |init| ==> init[i] == facts[i];
      MergeAllWithin(r, init);
      MergedWithin(r, MergeAll(init), facts[|facts| - 1]);
    }
  }

  lemma Nothing(r: Range)
    ensures Undefined.Fits(r.m) && Within(r, Undefined)
  {
  }

  ghost predicate AlwaysWithin(m: nat, s: nat) {
    forall r: Range, facts: seq<LatticeVal> {:trigger AllWithin(r, facts)} ::
      r.Valid() && r.m == m && r.GetSetSize() == s && AllWithin(r, facts) ==> Within(r, MergeAll(facts))
  }

  /** Half is the limit: two single values at the ends of any larger range may be joined the other way round. */
  lemma HalfDecides(m: nat, s: nat)
    requires m >= 2 && m % 2 == 0 && 0 < s < m
    ensures AlwaysWithin(m, s) <==> 2 * s <= m
  {
    hide MergeAll, Within;
    if 2 * s <= m {
      forall r: Range, facts: seq<LatticeVal> | r.Valid() && r.m == m && r.GetSetSize() == s && AllWithin(r, facts)
        ensures Within(r, MergeAll(facts))
      {
        MergeAllWithin(r, facts);
      }
    } else {
      var r := Range(m, 0, s);
      WrapSmall(s, m);
      assert r.GetSetSize() == s;
      var facts := [Get(0, m), Get(s - 1, m)];
      TwoEnds(m, s);
      assert AllWithin(r, facts) && !Within(r, MergeAll(facts));
    }
  }

  lemma TwoEnds(m: nat, s: nat)
    requires m >= 2 && m % 2 == 0 && 2 * s > m && s < m
    ensures AllWithin(Range(m, 0, s), [Get(0, m), Get(s - 1, m)])
    ensures !Within(Range(m, 0, s), MergeAll([Get(0, m), Get(s - 1, m)]))
  {
    hide Wrap;
    WrapSmall(1, m);
    WrapSmall(s, m);
    var a, b := Single(0, m), Single(s - 1, m);
    WrapSmall(b.lo - a.hi, m);
    WrapSmall(a.lo - b.hi, m);
    assert [Get(0, m), Get(s - 1, m)][..1] == [Get(0, m)] && [Get(0, m)][..0] == [];
    assert MergeAll([Get(0, m)]) == Get(0, m);
    assert UnionWith(a, b) == Range(m, s - 1, 1);
  }

  predicate NotLarger(fact: LatticeVal, r: Range)
    requires r.Valid()
  {
    match fact
    case Undefined => true
    case ConstantRange(s) => s.Valid() && s.GetSetSize() <= r.GetSetSize()
    case Overdefined => r.IsFullSet()
  }

  /** No range that holds all the facts is smaller than their join. */
  ghost predicate Smallest(facts: seq<LatticeVal>, m: nat) {
    forall r: Range {:trigger AllWithin(r, facts)} :: r.Valid() && r.m == m && AllWithin(r, facts) ==>
      NotLarger(MergeAll(facts), r)
  }

  ghost predicate AlwaysSmallest(n: nat) {
    forall m: nat, facts: seq<LatticeVal> {:trigger Smallest(facts, m)} :: m >= 2 && |facts| == n ==> Smallest(facts, m)
  }

  lemma ContainsSize(a: Range, b: Range)
    requires a.Valid() && b.Valid() && a.m == b.m && ContainsRange(a, b)
    ensures b.GetSetSize() <= a.GetSetSize()
  {
    hide Range.GetSetSize;
    SizeIs(a);
    SizeIs(b);
  }

  lemma FullSize(r: Range)
    requires r.Valid() && r.GetSetSize() >= r.m
    ensures r.IsFullSet()
  {
    hide Range.GetSetSize;
    SizeIs(r);
  }

  lemma MergedSmallest(a: LatticeVal, b: LatticeVal, r: Range)
    requires r.Valid() && a.Fits(r.m) && b.Fits(r.m) && Within(r, a) && Within(r, b)
    ensures NotLarger(Merged(a, b), r)
  {
    hide UnionWith, ContainsRange, Range.GetSetSize;
    if a.ConstantRange? { ContainsSize(r, a.range); }
    if b.ConstantRange? { ContainsSize(r, b.range); }
    if a.ConstantRange? && b.ConstantRange? {
      UnionSmallest(a.range, b.range, r);
      var v := AnyMember(a.range);
      UnionCovers(a.range, b.range, v);
      var u := UnionWith(a.range, b.range);
      if u.IsFullSet() {
        FullSet0(u);
        FullSize(r);
      }
    }
  }

  lemma FullSet0(u: Range)
    requires u.Valid() && u.IsFullSet()
    ensures u.GetSetSize() == u.m
  {
  }

  lemma FewFacts(facts: seq<LatticeVal>)
    requires |facts| <= 2
    ensures MergeAll(facts) == if facts == [] then Undefined else if |facts| == 1 then Merged(Undefined, facts[0])
                               else Merged(Merged(Undefined, facts[0]), facts[1])
  {
    if |facts| == 2 { assert facts[..1] == [facts[0]]; }
  }

  /** For many facts: single values at 0 and 7 and the upper half of 16 values. The first two are joined to [0, 8), although
      the way round over the upper half is all that the three together need. */
  function Greedy(n: nat): seq<LatticeVal> {
    if n <= 2 then [ConstantRange(Range(16, 7, 8)), ConstantRange(Range(16, 8, 0))][..n]
    else seq(n - 2, i => ConstantRange(Range(16, 0, 1))) + [ConstantRange(Range(16, 7, 8)), ConstantRange(Range(16, 8, 0))]
  }

  lemma {:induction false} SameMerged(facts: seq<LatticeVal>, f: LatticeVal)
    requires facts != [] && Merged(Undefined, f) == f && Merged(f, f) == f
    requires forall i {:trigger facts[i]} :: 0 <= i < |facts| ==> facts[i] == f
    ensures MergeAll(facts) == f
    decreases |facts|
  {
    hide Merged;
    if |facts| > 1 {
      var init := facts[..|facts| - 1];
      assert forall i {:trigger init[i]} :: 0 <= i < |init| ==> init[i] == facts[i];
      SameMerged(init, f);
    } else {
      assert facts[..0] == [];
    }
  }

  lemma GreedyJoin(n: nat)
    requires n >= 3
    ensures |Greedy(n)| == n && MergeAll(Greedy(n)) == Overdefined
  {
    hide MergeAll, Merged;
    var zero, seven, upper := ConstantRange(Range(16, 0, 1)), ConstantRange(Range(16, 7, 8)), ConstantRange(Range(16, 8, 0));
    var facts := Greedy(n);
    var most := facts[..n - 1];
    assert most[..n - 2] == facts[..n - 2];
    GreedySteps();
    SameMerged(facts[..n - 2], zero);
    assert facts[n - 1] == upper && most[n - 2] == seven;
    MergeLast(most);
    MergeLast(facts);
  }

  lemma MergeLast(facts: seq<LatticeVal>)
    requires facts != []
    ensures MergeAll(facts) == Merged(MergeAll(facts[..|facts| - 1]), facts[|facts| - 1])
  {
  }

  lemma GreedySteps()
    ensures var zero, seven, upper := ConstantRange(Range(16, 0, 1)), ConstantRange(Range(16, 7, 8)), ConstantRange(Range(16, 8, 0));
            && Merged(Undefined, zero) == zero && Merged(zero, zero) == zero
            && Merged(zero, seven) == ConstantRange(Range(16, 0, 8)) && Merged(ConstantRange(Range(16, 0, 8)), upper) == Overdefined
  {
    WrapSmall(6, 16);
    WrapSmall(0, 16);
    WrapSmall(7, 16);
    WrapSmall(-8, 16);
    WrapSmall(-1, 16);
  }

  /** A join of at most two facts is a smallest range that holds them; with three or more it need not be. */
  lemma TwoDecides(n: nat)
    ensures AlwaysSmallest(n) <==> n <= 2
  {
    hide MergeAll, Within, NotLarger, Merged, Greedy;
    if n <= 2 {
      forall m: nat, facts: seq<LatticeVal> | m >= 2 && |facts| == n ensures Smallest(facts, m) {
        forall r: Range | r.Valid() && r.m == m && AllWithin(r, facts) ensures NotLarger(MergeAll(facts), r) {
          FewSmallest(facts, r);
        }
      }
    } else {
      GreedyJoin(n);
      GreedyWithin(n);
      assert !Smallest(Greedy(n), 16);
    }
  }

  lemma FewSmallest(facts: seq<LatticeVal>, r: Range)
    requires r.Valid() && |facts| <= 2 && AllWithin(r, facts)
    ensures NotLarger(MergeAll(facts), r)
  {
    hide MergeAll, Within, NotLarger;
    FewFacts(facts);
    Nothing(r);
    if facts != [] {
      UndefinedMerged(facts[0]);
      MergedSmallest(Undefined, facts[0], r);
      if |facts| == 2 { MergedSmallest(facts[0], facts[1], r); }
    } else {
      MergedSmallest(Undefined, Undefined, r);
    }
  }

  lemma UndefinedMerged(f: LatticeVal)
    ensures Merged(Undefined, f) == f && Merged(Undefined, Undefined) == Undefined
  {
  }

  lemma GreedyWithin(n: nat)
    requires n >= 3
    ensures var r := Range(16, 7, 1); r.Valid() && AllWithin(r, Greedy(n)) && !NotLarger(Overdefined, r)
  {
    var r, facts := Range(16, 7, 1), Greedy(n);
    forall i | 0 <= i < |facts| ensures facts[i].Fits(r.m) && Within(r, facts[i]) {
      assert facts[i] in [ConstantRange(Range(16, 0, 1)), ConstantRange(Range(16, 7, 8)), ConstantRange(Range(16, 8, 0))];
    }
  }
}
