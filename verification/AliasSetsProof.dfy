/** Why sets never alias while no three tags are in use. */
module AliasSetsProof {
  import opened AliasSets

  // ----- Locations on record -----

  /** Accesses to one address are apart only by their tags. */
  lemma DifferentTags(o: Oracle, a: Loc, b: Loc)
    requires Lawful(o) && Same(o, a.p, b.p) && Apart(o, a, b) && a.size > 0 && b.size > 0
    ensures a.tag != 0 && b.tag != 0 && a.tag != b.tag
  {
    SameApart(o, a.p, b.p, a.size, a.tag, b);
    if a.tag == 0 || b.tag == 0 || a.tag == b.tag {
      var size := if a.size < b.size then a.size else b.size;
      var c := Loc(b.p, size, if a.tag == 0 then b.tag else a.tag);
      Smaller(o, Loc(b.p, a.size, a.tag), c, b);
      ApartSymmetric(o, c, b);
      Smaller(o, b, c, c);
    }
  }

  lemma ThirdTag(tags: set<Tag>, a: Tag, b: Tag, c: Tag)
    requires {a, b, c} <= tags && 0 !in {a, b, c} && a != b && a != c && b != c
    ensures ThreeTags(tags)
  {
    assert a in tags && b in tags && c in tags;
  }

  /** If a member of another set is at the address of p, with a third tag missing, the record of p has not lost its tag. */
  lemma TagKept(o: Oracle, r: Run, tags: set<Tag>, i: int, p: Ptr, m: Ptr, j: int, n: Ptr)
    requires Lawful(o) && Fits(r, tags) && Disjoint(o, r.st.groups, r.own) && i != j && Vouched(o, r, i, p)
    requires Voucher(o, r, i, p, m) && Holds(r.st.groups, j, n) && n in r.own && Same(o, p, n)
    requires r.own[m].size > 0 && r.own[n].size > 0
    ensures ThreeTags(tags) || r.own[m].tag == At(r.st.recs, p).tag
  {
    hide Lawful, Same, ThreeTags, Holds;
    if At(r.st.recs, p).tag == 0 {
      var t := r.own[m].tag;
      assert Beside(o, r, i, p, t);
      var m' :| Witness(o, r, i, p, t, m');
      SameTrans(o, p, m, m);
      SameTrans(o, p, m', m');
      SameTrans(o, m, p, n);
      SameTrans(o, m', p, n);
      DifferentTags(o, r.own[m], r.own[n]);
      DifferentTags(o, r.own[m'], r.own[n]);
      ThirdTag(tags, t, r.own[m'].tag, r.own[n].tag);
    }
  }

  /** Members of different sets at one address stay apart at the locations on record. */
  lemma RecordsApart(o: Oracle, r: Run, tags: set<Tag>, i: int, p: Ptr, j: int, q: Ptr)
    requires Lawful(o) && Fits(r, tags) && Disjoint(o, r.st.groups, r.own) && i != j
    requires Vouched(o, r, i, p) && Vouched(o, r, j, q) && Same(o, p, q)
    ensures ThreeTags(tags) || Apart(o, At(r.st.recs, p), At(r.st.recs, q))
  {
    hide Lawful, Same, ThreeTags, Holds;
    var m :| Voucher(o, r, i, p, m);
    var n :| Voucher(o, r, j, q, n);
    if r.own[m].size == 0 || r.own[n].size == 0 {
      NothingMet(o, At(r.st.recs, p), At(r.st.recs, q));
    } else {
      SameTrans(o, p, q, n);
      SameTrans(o, p, q, q);
      SameTrans(o, q, p, m);
      TagKept(o, r, tags, i, p, m, j, n);
      TagKept(o, r, tags, j, q, n, i, m);
      if !ThreeTags(tags) { ApartBoth(o, p, m, r.own[m].size, r.own[m].tag, q, n, r.own[n].size, r.own[n].tag); }
    }
  }

  lemma NothingMet(o: Oracle, a: Loc, b: Loc)
    requires Lawful(o) && (a.size == 0 || b.size == 0)
    ensures Apart(o, a, b)
  {
    assert o(a, b) == NoAlias;
  }

  lemma SameSelf(o: Oracle, q: Ptr)
    ensures Same(o, q, q)
  {
  }

  /** What vouches for a record goes on to, while all members stay. */
  lemma VouchedMoves(o: Oracle, r: Run, r': Run, x: int, x': int, p: Ptr)
    requires Vouched(o, r, x, p) && At(r'.st.recs, p) == At(r.st.recs, p)
    requires forall m {:trigger Holds(r.st.groups, x, m)} :: Holds(r.st.groups, x, m) && m in r.own ==>
               Holds(r'.st.groups, x', m) && m in r'.own && r'.own[m] == r.own[m]
    ensures Vouched(o, r', x', p)
  {
    hide Same, Holds, At;
    var m :| Voucher(o, r, x, p, m);
    assert Voucher(o, r', x', p, m);
    if At(r.st.recs, p).tag == 0 && At(r.st.recs, p).size > 0 {
      forall t ensures Beside(o, r', x', p, t) {
        BesideMoves(o, r, r', x, x', p, t);
      }
    }
  }

  lemma BesideMoves(o: Oracle, r: Run, r': Run, x: int, x': int, p: Ptr, t: Tag)
    requires Beside(o, r, x, p, t)
    requires forall m {:trigger Holds(r.st.groups, x, m)} :: Holds(r.st.groups, x, m) && m in r.own ==>
               Holds(r'.st.groups, x', m) && m in r'.own && r'.own[m] == r.own[m]
    ensures Beside(o, r', x', p, t)
  {
    hide Same, Holds;
    var m :| Witness(o, r, x, p, t, m);
    assert Witness(o, r', x', p, t, m);
  }

  // ----- Merging -----

  lemma MergeHolds(o: Oracle, st: State, i: nat, j: nat, x: int, p: Ptr)
    requires i < |st.groups| && j < |st.groups| && i != j
    ensures Holds(MergeSetIn(o, st, i, j).groups, x, p) <==>
            if x == i then Holds(st.groups, i, p) || Holds(st.groups, j, p) else x != j && Holds(st.groups, x, p)
  {
  }

  /** A merged set is never a must-alias set. */
  lemma MergedIsMay(o: Oracle, r: Run, tags: set<Tag>, i: nat, j: nat)
    requires Lawful(o) && Inv(o, r, tags) && !ThreeTags(tags) && i < |r.st.groups| && j < |r.st.groups| && i != j
    ensures !MergeSetIn(o, r.st, i, j).groups[i].must
  {
    hide Lawful, Same, Partition, AllAnswer, Fits, Disjoint, Vouched, ThreeTags;
    var a, b := r.st.groups[i], r.st.groups[j];
    if a.ptrs != [] && b.ptrs != [] && o(At(r.st.recs, a.ptrs[0]), At(r.st.recs, b.ptrs[0])) == MustAlias {
      assert Holds(r.st.groups, i, a.ptrs[0]) && Holds(r.st.groups, j, b.ptrs[0]);
      MustIsSame(o, At(r.st.recs, a.ptrs[0]), At(r.st.recs, b.ptrs[0]));
      RecordsApart(o, r, tags, i, a.ptrs[0], j, b.ptrs[0]);
    }
  }

  lemma MustIsSame(o: Oracle, a: Loc, b: Loc)
    requires Lawful(o) && o(a, b) == MustAlias
    ensures Same(o, a.p, b.p) && a.size > 0 && b.size > 0
  {
  }

  lemma MergePartition(o: Oracle, st: State, i: nat, j: nat)
    requires Partition(st) && i < |st.groups| && j < |st.groups| && i != j
    ensures Partition(MergeSetIn(o, st, i, j))
  {
    var st' := MergeSetIn(o, st, i, j);
    forall x, p ensures Holds(st'.groups, x, p) <==>
        if x == i then Holds(st.groups, i, p) || Holds(st.groups, j, p) else x != j && Holds(st.groups, x, p)
    {
      MergeHolds(o, st, i, j, x, p);
    }
    hide Holds, MergeSetIn;
    forall p | p in st'.recs ensures exists x :: Holds(st'.groups, x, p) {
      var x :| Holds(st.groups, x, p);
      assert Holds(st'.groups, if x == j then i else x, p);
    }
    MergeNoRepeats(o, st, i, j);
  }

  lemma MergeNoRepeats(o: Oracle, st: State, i: nat, j: nat)
    requires Partition(st) && i < |st.groups| && j < |st.groups| && i != j
    ensures forall x {:trigger MergeSetIn(o, st, i, j).groups[x]} :: 0 <= x < |st.groups| ==>
              NoRepeats(MergeSetIn(o, st, i, j).groups[x].ptrs)
  {
    var a, b := st.groups[i].ptrs, st.groups[j].ptrs;
    assert NoRepeats(a) && NoRepeats(b);
    forall k, l | 0 <= k < l < |a + b| ensures (a + b)[k] != (a + b)[l] {
      if k < |a| <= l { assert Holds(st.groups, i, a[k]) && Holds(st.groups, j, b[l - |a|]); }
    }
  }

  lemma MergeDisjoint(o: Oracle, r: Run, i: nat, j: nat)
    requires Disjoint(o, r.st.groups, r.own) && i < |r.st.groups| && j < |r.st.groups| && i != j
    ensures Disjoint(o, MergeSetIn(o, r.st, i, j).groups, r.own)
  {
    var gs, gs' := r.st.groups, MergeSetIn(o, r.st, i, j).groups;
    forall x, y, p, q | Holds(gs', x, p) && Holds(gs', y, q) && x != y && p in r.own && q in r.own
      ensures Apart(o, r.own[p], r.own[q])
    {
      MergeHolds(o, r.st, i, j, x, p);
      MergeHolds(o, r.st, i, j, y, q);
      var x0 := if x == i && !Holds(gs, i, p) then j else x;
      var y0 := if y == i && !Holds(gs, i, q) then j else y;
      assert Holds(gs, x0, p) && Holds(gs, y0, q);
    }
  }

  lemma MergeVouched(o: Oracle, r: Run, i: nat, j: nat)
    requires AllVouched(o, r) && i < |r.st.groups| && j < |r.st.groups| && i != j
    ensures AllVouched(o, r.(st := MergeSetIn(o, r.st, i, j)))
  {
    hide Same, Vouched;
    var r' := r.(st := MergeSetIn(o, r.st, i, j));
    forall x, p | Holds(r'.st.groups, x, p) ensures Vouched(o, r', x, p) {
      MergeHolds(o, r.st, i, j, x, p);
      var x0 := if x == i && !Holds(r.st.groups, i, p) then j else x;
      forall m | Holds(r.st.groups, x0, m) ensures Holds(r'.st.groups, x, m) {
        MergeHolds(o, r.st, i, j, x, m);
      }
      VouchedMoves(o, r, r', x0, x, p);
    }
  }

  lemma MergeInv(o: Oracle, r: Run, tags: set<Tag>, i: nat, j: nat)
    requires Lawful(o) && Inv(o, r, tags) && !ThreeTags(tags) && i < |r.st.groups| && j < |r.st.groups| && i != j
    ensures Inv(o, r.(st := MergeSetIn(o, r.st, i, j)), tags)
  {
    hide Lawful, Same, Partition, AllVouched, Disjoint, Answers, ThreeTags;
    MergedIsMay(o, r, tags, i, j);
    MergePartition(o, r.st, i, j);
    MergeDisjoint(o, r, i, j);
    MergeVouched(o, r, i, j);
    var r' := r.(st := MergeSetIn(o, r.st, i, j));
    forall x | 0 <= x < |r'.st.groups| ensures FirstAnswers(o, r', x) {
      if x != i && x != j {
        assert FirstAnswers(o, r, x) && r'.st.groups[x] == r.st.groups[x];
        AnswersMove(o, r, r', x);
      }
    }
  }

  /** A set that is left alone is answered for as before. */
  lemma AnswersMove(o: Oracle, r: Run, r': Run, x: nat)
    requires FirstAnswers(o, r, x) && x < |r.st.groups| && x < |r'.st.groups| && r'.st.groups[x] == r.st.groups[x]
    requires r.st.groups[x].ptrs != [] ==> At(r'.st.recs, r.st.groups[x].ptrs[0]) == At(r.st.recs, r.st.groups[x].ptrs[0])
    requires forall p {:trigger p in r.own} :: p in r.own ==> p in r'.own && r'.own[p] == r.own[p]
    ensures FirstAnswers(o, r', x)
  {
    hide Same, At;
    var g := r.st.groups[x];
    forall p | Holds(r'.st.groups, x, p) && g.must && g.ptrs != [] ensures Answers(o, r', g.ptrs[0], p) {
      assert Holds(r.st.groups, x, p);
    }
  }

  // ----- Finding the set of a new pointer -----

  /** No member of set j aliases the location. */
  ghost predicate Clear(o: Oracle, r: Run, j: int, loc: Loc) {
    forall q {:trigger Holds(r.st.groups, j, q)} :: Holds(r.st.groups, j, q) ==> q in r.own && Apart(o, r.own[q], loc)
  }

  /** A set that does not alias the location is clear of it. */
  lemma PassedOver(o: Oracle, r: Run, tags: set<Tag>, j: nat, loc: Loc)
    requires Lawful(o) && Inv(o, r, tags) && j < |r.st.groups|
    requires !AliasesPointer(o, r.st.recs, r.st.groups[j], loc)
    ensures Clear(o, r, j, loc)
  {
    hide Lawful, Same, Partition, Disjoint, At, Vouched;
    var g := r.st.groups[j];
    forall q | Holds(r.st.groups, j, q) ensures q in r.own && Apart(o, r.own[q], loc) {
      MemberKnown(r, tags, j, q);
      if g.must {
        assert FirstAnswers(o, r, j) && Answers(o, r, g.ptrs[0], q);
        Smaller(o, At(r.st.recs, g.ptrs[0]), r.own[q].(p := g.ptrs[0]), loc);
        SameApart(o, g.ptrs[0], q, r.own[q].size, r.own[q].tag, loc);
      } else {
        assert o(loc, At(r.st.recs, q)) == NoAlias;
        ApartSymmetric(o, loc, At(r.st.recs, q));
        Smaller(o, At(r.st.recs, q), r.own[q], loc);
      }
    }
  }

  lemma MemberKnown(r: Run, tags: set<Tag>, i: int, p: Ptr)
    requires Fits(r, tags) && Partition(r.st) && Holds(r.st.groups, i, p)
    ensures p in r.own && p in r.st.recs && r.own[p].p == p && Within(r.own[p], At(r.st.recs, p))
  {
  }

  lemma Smaller(o: Oracle, a: Loc, b: Loc, c: Loc)
    requires Lawful(o) && Within(b, a) && Apart(o, a, c)
    ensures Apart(o, b, c)
  {
  }

  /** Sets before k, other than the one found, are clear. */
  ghost predicate Searched(o: Oracle, r: Run, loc: Loc, k: nat, found: int) {
    && -1 <= found < k <= |r.st.groups|
    && (forall j {:trigger Clear(o, r, j, loc)} :: 0 <= j < k && j != found ==> Clear(o, r, j, loc))
    && (found != -1 ==> r.st.groups[found].ptrs != [])
  }

  lemma SearchMerges(o: Oracle, r: Run, loc: Loc, k: nat, found: nat)
    requires Searched(o, r, loc, k, found) && k < |r.st.groups|
    ensures Searched(o, r.(st := MergeSetIn(o, r.st, found, k)), loc, k + 1, found)
  {
    var r' := r.(st := MergeSetIn(o, r.st, found, k));
    forall j | 0 <= j < k + 1 && j != found ensures Clear(o, r', j, loc) {
      if j < k { assert Clear(o, r, j, loc); }
      forall q | Holds(r'.st.groups, j, q) ensures q in r.own && Apart(o, r.own[q], loc) {
        MergeHolds(o, r.st, found, k, j, q);
      }
    }
  }

  lemma {:induction false} FindFromInv(o: Oracle, r: Run, tags: set<Tag>, loc: Loc, k: nat, found: int)
    requires Lawful(o) && Inv(o, r, tags) && !ThreeTags(tags) && Searched(o, r, loc, k, found)
    ensures var f := FindFrom(o, r.st, loc, k, found); var r' := r.(st := f.st);
            Inv(o, r', tags) && Searched(o, r', loc, |r'.st.groups|, f.at)
    decreases |r.st.groups| - k
  {
    hide Lawful, Inv, Clear, AliasesPointer;
    if k < |r.st.groups| {
      if !AliasesPointer(o, r.st.recs, r.st.groups[k], loc) {
        PassedOver(o, r, tags, k, loc);
        FindFromInv(o, r, tags, loc, k + 1, found);
      } else if found == -1 {
        AliasedIsLive(o, r.st.recs, r.st.groups[k], loc);
        FindFromInv(o, r, tags, loc, k + 1, k);
      } else {
        MergeInv(o, r, tags, found, k);
        SearchMerges(o, r, loc, k, found);
        FindFromInv(o, r.(st := MergeSetIn(o, r.st, found, k)), tags, loc, k + 1, found);
      }
    }
  }

  lemma AliasedIsLive(o: Oracle, recs: map<Ptr, Rec>, g: Group, loc: Loc)
    requires AliasesPointer(o, recs, g, loc)
    ensures g.ptrs != []
  {
  }

  // ----- Adding a pointer -----

  lemma AddedHolds(o: Oracle, st: State, i: nat, loc: Loc, known: bool, x: int, p: Ptr)
    requires i < |st.groups|
    ensures Holds(AddPointer(o, st, i, loc, known).groups, x, p) <==> Holds(st.groups, x, p) || (x == i && p == loc.p)
  {
  }

  lemma AddedPartition(o: Oracle, st: State, i: nat, loc: Loc, known: bool)
    requires Partition(st) && i < |st.groups| && loc.p !in st.recs
    ensures Partition(AddPointer(o, st, i, loc, known))
  {
    var st' := AddPointer(o, st, i, loc, known);
    var g := st.groups[i].ptrs;
    assert !Holds(st.groups, i, loc.p);
    assert NoRepeats(g + [loc.p]) by { assert NoRepeats(g); }
    assert st'.recs.Keys == st.recs.Keys + {loc.p} by {
      if g != [] { assert Holds(st.groups, i, g[0]); }
    }
    forall x, p ensures Holds(st'.groups, x, p) <==> Holds(st.groups, x, p) || (x == i && p == loc.p) {
      AddedHolds(o, st, i, loc, known, x, p);
    }
    forall x | 0 <= x < |st'.groups| ensures NoRepeats(st'.groups[x].ptrs) {
      if x != i { assert st'.groups[x] == st.groups[x]; } else { assert st'.groups[i].ptrs == g + [loc.p]; }
    }
    hide Holds, AddPointer, NoRepeats;
    forall p | p in st'.recs ensures exists x :: Holds(st'.groups, x, p) {
      if p == loc.p {
        assert Holds(st'.groups, i, p);
      } else {
        var x :| Holds(st.groups, x, p);
        assert Holds(st'.groups, x, p);
      }
    }
  }

  lemma AddedDisjoint(o: Oracle, r: Run, i: nat, loc: Loc, mine: Loc, known: bool)
    requires Lawful(o) && Disjoint(o, r.st.groups, r.own) && Partition(r.st) && i < |r.st.groups| && loc.p !in r.st.recs
    requires forall j {:trigger Clear(o, r, j, mine)} :: 0 <= j < |r.st.groups| && j != i ==> Clear(o, r, j, mine)
    ensures Disjoint(o, AddPointer(o, r.st, i, loc, known).groups, r.own[loc.p := mine])
  {
    hide Lawful;
    var gs, gs' := r.st.groups, AddPointer(o, r.st, i, loc, known).groups;
    var own := r.own[loc.p := mine];
    forall x, y, p, q | Holds(gs', x, p) && Holds(gs', y, q) && x != y && p in own && q in own
      ensures Apart(o, own[p], own[q])
    {
      AddedHolds(o, r.st, i, loc, known, x, p);
      AddedHolds(o, r.st, i, loc, known, y, q);
      if p == loc.p {
        assert x == i by { assert !Holds(gs, x, p); }
        assert Clear(o, r, y, mine) && Holds(gs, y, q);
        ApartSymmetric(o, own[p], own[q]);
      } else if q == loc.p {
        assert y == i by { assert !Holds(gs, y, q); }
        assert Clear(o, r, x, mine) && Holds(gs, x, p);
      } else {
        assert Holds(gs, x, p) && Holds(gs, y, q);
      }
    }
  }

  /** A new pointer may be put into set i: it is asked about, or the set is known to answer for it and to vouch for it. */
  ghost predicate Admitted(o: Oracle, r: Run, tags: set<Tag>, i: nat, loc: Loc, mine: Loc, known: bool) {
    && i < |r.st.groups| && loc.p !in r.st.recs && mine.tag in tags && Within(mine, loc)
    && if known then AnsweredFor(o, r, i, mine) && VouchedFor(o, r, i, loc) else mine == loc
  }

  ghost predicate AnsweredFor(o: Oracle, r: Run, i: nat, mine: Loc)
    requires i < |r.st.groups|
  {
    var g := r.st.groups[i];
    g.must && g.ptrs != [] ==> Same(o, g.ptrs[0], mine.p) && Within(mine.(p := g.ptrs[0]), At(r.st.recs, g.ptrs[0]))
  }

  /** A member of set i has the location as its record. */
  ghost predicate VouchedFor(o: Oracle, r: Run, i: nat, loc: Loc) {
    exists q :: Twin(o, r, i, loc, q)
  }

  ghost predicate Twin(o: Oracle, r: Run, i: nat, loc: Loc, q: Ptr) {
    Holds(r.st.groups, i, q) && Same(o, loc.p, q) && At(r.st.recs, q) == loc.(p := q)
  }

  /** The record of the first member of set i takes the new location in. */
  ghost predicate Grew(o: Oracle, st: State, st': State, i: nat, loc: Loc, p: Ptr)
    requires i < |st.groups|
  {
    var g := st.groups[i];
    && g.must && g.ptrs != [] && p == g.ptrs[0] && p in st.recs && p in st'.recs
    && o(At(st.recs, p), loc) == MustAlias && st'.recs[p] == st.recs[p].Update(loc.size, loc.tag)
  }

  /** What adding does to the records. */
  lemma AddedRecords(o: Oracle, st: State, i: nat, loc: Loc, known: bool)
    requires i < |st.groups| && loc.p !in st.recs
    requires st.groups[i].ptrs != [] ==> st.groups[i].ptrs[0] in st.recs
    ensures var st' := AddPointer(o, st, i, loc, known); var g := st.groups[i];
            && st'.recs.Keys == st.recs.Keys + {loc.p} && st'.recs[loc.p] == Rec(loc.size, Known(loc.tag))
            && (forall p {:trigger st'.recs[p]} :: p in st.recs ==>
                  st'.recs[p] == st.recs[p] || (!known && Grew(o, st, st', i, loc, p)))
            && (st'.groups[i].must && g.ptrs != [] ==> g.must && (known || Grew(o, st, st', i, loc, g.ptrs[0])))
            && |st'.groups| == |st.groups| && st'.groups[i].ptrs == g.ptrs + [loc.p]
            && (forall x {:trigger st'.groups[x]} :: 0 <= x < |st.groups| && x != i ==> st'.groups[x] == st.groups[x])
  {
  }

  /** An update covers what was on record and what is new. */
  lemma UpdateCovers(rec: Rec, p: Ptr, loc: Loc)
    requires rec.tag != Unset
    ensures var r' := rec.Update(loc.size, loc.tag); var old' := Loc(p, rec.size, rec.GetTag()); var new' := Loc(p, r'.size, r'.GetTag());
            && r'.tag != Unset && Within(old', new') && Within(loc.(p := p), new')
            && (new'.tag == 0 || (new'.tag == loc.tag && new'.tag == old'.tag))
            && (new'.size == loc.size || new'.size == old'.size)
            && (new'.tag == 0 && old'.tag != 0 ==> loc.tag != old'.tag)
  {
  }

  lemma FirstKnown(st: State, i: nat)
    requires Partition(st) && i < |st.groups|
    ensures st.groups[i].ptrs != [] ==> st.groups[i].ptrs[0] in st.recs && Holds(st.groups, i, st.groups[i].ptrs[0])
  {
    if st.groups[i].ptrs != [] { assert Holds(st.groups, i, st.groups[i].ptrs[0]); }
  }

  lemma AddedHoldsAll(o: Oracle, st: State, i: nat, loc: Loc, known: bool)
    requires i < |st.groups|
    ensures forall x, p {:trigger Holds(AddPointer(o, st, i, loc, known).groups, x, p)} {:trigger Holds(st.groups, x, p)} ::
              Holds(AddPointer(o, st, i, loc, known).groups, x, p) <==> Holds(st.groups, x, p) || (x == i && p == loc.p)
  {
    forall x, p ensures Holds(AddPointer(o, st, i, loc, known).groups, x, p) <==>
        Holds(st.groups, x, p) || (x == i && p == loc.p)
    {
      AddedHolds(o, st, i, loc, known, x, p);
    }
  }

  function Added(o: Oracle, r: Run, i: nat, loc: Loc, mine: Loc, known: bool): Run
    requires i < |r.st.groups|
  {
    Run(AddPointer(o, r.st, i, loc, known), r.own[loc.p := mine])
  }

  lemma AddedFits(o: Oracle, r: Run, tags: set<Tag>, i: nat, loc: Loc, mine: Loc, known: bool)
    requires Fits(r, tags) && Partition(r.st) && Admitted(o, r, tags, i, loc, mine, known)
    ensures Fits(Added(o, r, i, loc, mine, known), tags)
  {
    hide Same, AddPointer, Partition, Holds, Rec.Update;
    FirstKnown(r.st, i);
    AddedRecords(o, r.st, i, loc, known);
    var r' := Added(o, r, i, loc, mine, known);
    forall p | p in r'.own
      ensures r'.own[p].tag in tags && Within(r'.own[p], At(r'.st.recs, p)) && r'.st.recs[p].tag != Unset
    {
      if p != loc.p { UpdateCovers(r.st.recs[p], p, loc); }
    }
  }

  /** A record that takes a new location in is vouched for by the members that did before and the new one. */
  lemma GrownVouched(o: Oracle, r: Run, r': Run, i: nat, loc: Loc, p: Ptr)
    requires Vouched(o, r, i, p) && i < |r.st.groups| && Grew(o, r.st, r'.st, i, loc, p) && Lawful(o)
    requires loc.p !in r.own && r'.own == r.own[loc.p := loc] && r.st.recs[p].tag != Unset
    requires forall m {:trigger Holds(r'.st.groups, i, m)} {:trigger Holds(r.st.groups, i, m)} ::
               Holds(r'.st.groups, i, m) <==> Holds(r.st.groups, i, m) || m == loc.p
    ensures Vouched(o, r', i, p)
  {
    hide Same, Holds, Lawful, Rec.Update;
    UpdateCovers(r.st.recs[p], p, loc);
    MustIsSame(o, At(r.st.recs, p), loc);
    assert Alike(o, r', i, p, loc.p) by { assert Holds(r'.st.groups, i, loc.p); }
    var m :| Voucher(o, r, i, p, m);
    assert Alike(o, r', i, p, m) by { assert Holds(r'.st.groups, i, m); }
    assert Voucher(o, r', i, p, if At(r'.st.recs, p).size == loc.size then loc.p else m);
    if At(r'.st.recs, p).tag == 0 {
      forall t ensures Beside(o, r', i, p, t) { GrownBeside(o, r, r', i, loc, p, m, t); }
    }
  }

  lemma GrownBeside(o: Oracle, r: Run, r': Run, i: nat, loc: Loc, p: Ptr, m: Ptr, t: Tag)
    requires Vouched(o, r, i, p) && loc.p !in r.own && r'.own == r.own[loc.p := loc]
    requires forall m {:trigger Holds(r'.st.groups, i, m)} {:trigger Holds(r.st.groups, i, m)} ::
               Holds(r'.st.groups, i, m) <==> Holds(r.st.groups, i, m) || m == loc.p
    requires At(r.st.recs, p).size > 0 && loc.size > 0 && Voucher(o, r, i, p, m)
    requires Alike(o, r', i, p, loc.p) && Alike(o, r', i, p, m)
    requires At(r.st.recs, p).tag != 0 ==> loc.tag != At(r.st.recs, p).tag
    ensures Beside(o, r', i, p, t)
  {
    hide Same, Holds, At;
    if At(r.st.recs, p).tag == 0 {
      assert Beside(o, r, i, p, t);
      BesideMoves(o, r, r', i, i, p, t);
    } else if loc.tag != t {
      assert Witness(o, r', i, p, t, loc.p);
    } else {
      assert Witness(o, r', i, p, t, m);
    }
  }

  /** The new pointer vouches for itself, or a member with the same record has vouchers that do. */
  lemma NewVouched(o: Oracle, r: Run, r': Run, tags: set<Tag>, i: nat, loc: Loc, mine: Loc, known: bool)
    requires Admitted(o, r, tags, i, loc, mine, known) && AllVouched(o, r) && r'.own == r.own[loc.p := mine]
    requires loc.p !in r.own && At(r'.st.recs, loc.p) == loc
    requires forall m {:trigger Holds(r'.st.groups, i, m)} {:trigger Holds(r.st.groups, i, m)} ::
               Holds(r'.st.groups, i, m) <==> Holds(r.st.groups, i, m) || m == loc.p
    ensures Vouched(o, r', i, loc.p)
  {
    hide Same, Holds, At, AnsweredFor, Vouched;
    if known {
      var q :| Twin(o, r, i, loc, q);
      assert Vouched(o, r, i, q);
      TwinVouches(o, r, r', i, loc, q);
    } else {
      SameSelf(o, loc.p);
      SelfVouched(o, r', i, loc);
    }
  }

  lemma SelfVouched(o: Oracle, r: Run, i: int, loc: Loc)
    requires Holds(r.st.groups, i, loc.p) && loc.p in r.own && r.own[loc.p] == loc && At(r.st.recs, loc.p) == loc
    ensures Vouched(o, r, i, loc.p)
  {
    hide Holds, At;
    assert Voucher(o, r, i, loc.p, loc.p);
    if loc.tag == 0 && loc.size > 0 {
      forall t ensures Beside(o, r, i, loc.p, t) { assert Witness(o, r, i, loc.p, t, loc.p); }
    }
  }

  lemma TwinVouches(o: Oracle, r: Run, r': Run, i: nat, loc: Loc, q: Ptr)
    requires Twin(o, r, i, loc, q) && Vouched(o, r, i, q) && loc.p !in r.own && At(r'.st.recs, loc.p) == loc
    requires forall m {:trigger m in r.own} :: m in r.own ==> m in r'.own && r'.own[m] == r.own[m]
    requires forall m {:trigger Holds(r'.st.groups, i, m)} {:trigger Holds(r.st.groups, i, m)} ::
               Holds(r'.st.groups, i, m) <==> Holds(r.st.groups, i, m) || m == loc.p
    ensures Vouched(o, r', i, loc.p)
  {
    hide Same, Holds, At;
    var m :| Voucher(o, r, i, q, m);
    SameTrans(o, loc.p, q, m);
    assert Voucher(o, r', i, loc.p, m) by { assert Holds(r'.st.groups, i, m); }
    if loc.tag == 0 && loc.size > 0 {
      forall t ensures Beside(o, r', i, loc.p, t) {
        assert Beside(o, r, i, q, t);
        var w :| Witness(o, r, i, q, t, w);
        SameTrans(o, loc.p, q, w);
        assert Witness(o, r', i, loc.p, t, w) by { assert Holds(r'.st.groups, i, w); }
      }
    }
  }

  lemma AddedVouched(o: Oracle, r: Run, tags: set<Tag>, i: nat, loc: Loc, mine: Loc, known: bool)
    requires Lawful(o) && Inv(o, r, tags) && Admitted(o, r, tags, i, loc, mine, known)
    ensures AllVouched(o, Added(o, r, i, loc, mine, known))
  {
    hide Same, AllAnswer, Disjoint, Lawful, AddPointer, Partition, Holds, Vouched, Within, Rec.Update, Grew, AnsweredFor, VouchedFor;
    var r' := Added(o, r, i, loc, mine, known);
    AddedHoldsAll(o, r.st, i, loc, known);
    FirstKnown(r.st, i);
    AddedRecords(o, r.st, i, loc, known);
    forall x, p | Holds(r'.st.groups, x, p) ensures Vouched(o, r', x, p) {
      NotHeld(r.st, x, loc.p);
      if p == loc.p {
        NewVouched(o, r, r', tags, i, loc, mine, known);
      } else {
        MemberKnown(r, tags, x, p);
        if r'.st.recs[p] == r.st.recs[p] {
          VouchedMoves(o, r, r', x, x, p);
        } else {
          GrewIsFirst(o, r.st, r'.st, i, loc, p);
          OneHome(r.st, x, i, p);
          GrownVouched(o, r, r', i, loc, p);
        }
      }
    }
  }

  lemma GrewIsFirst(o: Oracle, st: State, st': State, i: nat, loc: Loc, p: Ptr)
    requires i < |st.groups| && Grew(o, st, st', i, loc, p)
    ensures st.groups[i].ptrs != [] && p == st.groups[i].ptrs[0]
  {
  }

  lemma NotHeld(st: State, x: int, p: Ptr)
    ensures Partition(st) && p !in st.recs ==> !Holds(st.groups, x, p)
  {
  }

  /** A pointer of set x that is the first of set i is the first of set x. */
  lemma OneHome(st: State, x: int, i: nat, p: Ptr)
    requires Partition(st) && i < |st.groups|
    ensures Holds(st.groups, x, p) && st.groups[i].ptrs != [] && p == st.groups[i].ptrs[0] ==> x == i
  {
    if st.groups[i].ptrs != [] { assert Holds(st.groups, i, st.groups[i].ptrs[0]); }
  }

  lemma AddedAnswers(o: Oracle, r: Run, tags: set<Tag>, i: nat, loc: Loc, mine: Loc, known: bool)
    requires Lawful(o) && Inv(o, r, tags) && Admitted(o, r, tags, i, loc, mine, known)
    ensures AllAnswer(o, Added(o, r, i, loc, mine, known))
  {
    hide Same, AllVouched, Disjoint, Lawful, AddPointer, Partition, Holds, Rec.Update, Within, FirstAnswers, AnsweredFor, VouchedFor;
    var r' := Added(o, r, i, loc, mine, known);
    FirstKnown(r.st, i);
    AddedRecords(o, r.st, i, loc, known);
    forall x | 0 <= x < |r'.st.groups| ensures FirstAnswers(o, r', x) {
      var g := r.st.groups[x];
      if x == i {
        AnswersHere(o, r, tags, i, loc, mine, known);
      } else {
        FirstKnown(r.st, x);
        if g.ptrs != [] { OneHome(r.st, x, i, g.ptrs[0]); }
        AnswersMove(o, r, r', x);
      }
    }
  }

  lemma AnswersHere(o: Oracle, r: Run, tags: set<Tag>, i: nat, loc: Loc, mine: Loc, known: bool)
    requires Lawful(o) && Inv(o, r, tags) && Admitted(o, r, tags, i, loc, mine, known)
    ensures FirstAnswers(o, Added(o, r, i, loc, mine, known), i)
  {
    hide Same, AllVouched, Disjoint, Lawful, AddPointer, Partition, Holds, Rec.Update, Within, VouchedFor, Answers, AnsweredFor;
    var r' := Added(o, r, i, loc, mine, known);
    AddedHoldsAll(o, r.st, i, loc, known);
    FirstKnown(r.st, i);
    AddedRecords(o, r.st, i, loc, known);
    NotHeld(r.st, i, loc.p);
    assert FirstAnswers(o, r, i);
    var g, g' := r.st.groups[i], r'.st.groups[i];
    if g'.must {
      forall p | Holds(r'.st.groups, i, p) ensures Answers(o, r', g'.ptrs[0], p) {
        if g.ptrs == [] {
          assert p == loc.p by { NobodyHeld(r.st, i, p); }
          AloneAnswers(o, r', loc, mine);
        } else if p == loc.p {
          NewAnswered(o, r, r', tags, i, loc, mine, known);
        } else {
          MemberKnown(r, tags, i, p);
          AnswersOn(o, r, r', i, loc, p);
        }
      }
    }
  }

  lemma NobodyHeld(st: State, i: nat, p: Ptr)
    requires i < |st.groups| && st.groups[i].ptrs == []
    ensures !Holds(st.groups, i, p)
  {
  }

  lemma AloneAnswers(o: Oracle, r: Run, loc: Loc, mine: Loc)
    requires Within(mine, loc) && loc.p in r.own && r.own[loc.p] == mine && At(r.st.recs, loc.p) == loc
    ensures Answers(o, r, loc.p, loc.p)
  {
    hide At;
    SameSelf(o, loc.p);
  }

  lemma NewAnswered(o: Oracle, r: Run, r': Run, tags: set<Tag>, i: nat, loc: Loc, mine: Loc, known: bool)
    requires Lawful(o) && Fits(r, tags) && Admitted(o, r, tags, i, loc, mine, known)
    requires r.st.groups[i].must && r.st.groups[i].ptrs != [] && r.st.groups[i].ptrs[0] in r.st.recs
    requires r'.own == r.own[loc.p := mine] && r.st.groups[i].ptrs[0] in r'.st.recs
    requires if known then r'.st.recs[r.st.groups[i].ptrs[0]] == r.st.recs[r.st.groups[i].ptrs[0]]
             else Grew(o, r.st, r'.st, i, loc, r.st.groups[i].ptrs[0])
    ensures Answers(o, r', r.st.groups[i].ptrs[0], loc.p)
  {
    hide Same, Lawful, Rec.Update, VouchedFor, Within;
    var f := r.st.groups[i].ptrs[0];
    assert mine.p == loc.p by { WithinPointer(mine, loc); }
    if !known {
      MustIsSame(o, At(r.st.recs, f), loc);
      UpdateCovers(r.st.recs[f], f, loc);
    }
  }

  lemma WithinPointer(b: Loc, a: Loc)
    ensures Within(b, a) ==> b.p == a.p
  {
  }

  lemma AnswersOn(o: Oracle, r: Run, r': Run, i: nat, loc: Loc, p: Ptr)
    requires i < |r.st.groups| && r.st.groups[i].ptrs != [] && Answers(o, r, r.st.groups[i].ptrs[0], p)
    requires r.st.groups[i].ptrs[0] in r.st.recs && r.st.recs[r.st.groups[i].ptrs[0]].tag != Unset
    requires p in r'.own && r'.own[p] == r.own[p] && r.st.groups[i].ptrs[0] in r'.st.recs
    requires r'.st.recs[r.st.groups[i].ptrs[0]] == r.st.recs[r.st.groups[i].ptrs[0]]
             || Grew(o, r.st, r'.st, i, loc, r.st.groups[i].ptrs[0])
    ensures Answers(o, r', r.st.groups[i].ptrs[0], p)
  {
    hide Same, Rec.Update;
    UpdateCovers(r.st.recs[r.st.groups[i].ptrs[0]], r.st.groups[i].ptrs[0], loc);
  }

  lemma AddedInv(o: Oracle, r: Run, tags: set<Tag>, i: nat, loc: Loc, mine: Loc, known: bool)
    requires Lawful(o) && Inv(o, r, tags) && Admitted(o, r, tags, i, loc, mine, known)
    requires forall j {:trigger Clear(o, r, j, mine)} :: 0 <= j < |r.st.groups| && j != i ==> Clear(o, r, j, mine)
    ensures Inv(o, Added(o, r, i, loc, mine, known), tags)
  {
    hide Lawful, Fits, Partition, AllVouched, AllAnswer, Disjoint, Clear, AnsweredFor, VouchedFor, Within, AddPointer;
    AddedFits(o, r, tags, i, loc, mine, known);
    AddedPartition(o, r.st, i, loc, known);
    AddedVouched(o, r, tags, i, loc, mine, known);
    AddedAnswers(o, r, tags, i, loc, mine, known);
    AddedDisjoint(o, r, i, loc, mine, known);
  }

  // ----- Whole histories -----

  function WithNewSet(st: State): State { st.(groups := st.groups + [Group([], true)]) }

  lemma NewSetHolds(st: State)
    ensures WithNewSet(st).recs == st.recs && |WithNewSet(st).groups| == |st.groups| + 1
    ensures forall x, p {:trigger Holds(WithNewSet(st).groups, x, p)} {:trigger Holds(st.groups, x, p)} ::
              Holds(WithNewSet(st).groups, x, p) <==> Holds(st.groups, x, p)
  {
    forall x, p ensures Holds(WithNewSet(st).groups, x, p) <==> Holds(st.groups, x, p) {
      if 0 <= x < |st.groups| { assert WithNewSet(st).groups[x] == st.groups[x]; }
    }
  }

  lemma NewSetInv(o: Oracle, r: Run, tags: set<Tag>)
    requires Inv(o, r, tags)
    ensures Inv(o, r.(st := WithNewSet(r.st)), tags)
  {
    hide Same, Partition, AllVouched, AllAnswer, Disjoint;
    NewSetHolds(r.st);
    NewSetPartition(r.st);
    NewSetVouched(o, r);
    NewSetAnswers(o, r);
    NewSetDisjoint(o, r);
  }

  lemma NewSetPartition(st: State)
    requires Partition(st)
    ensures Partition(WithNewSet(st))
  {
    hide Holds, WithNewSet, NoRepeats;
    NewSetHolds(st);
    NewSetNoRepeats(st);
    forall p | p in WithNewSet(st).recs ensures exists x :: Holds(WithNewSet(st).groups, x, p) {
      var x :| Holds(st.groups, x, p);
      assert Holds(WithNewSet(st).groups, x, p);
    }
  }

  lemma NewSetNoRepeats(st: State)
    requires forall i {:trigger st.groups[i]} :: 0 <= i < |st.groups| ==> NoRepeats(st.groups[i].ptrs)
    ensures forall i {:trigger WithNewSet(st).groups[i]} :: 0 <= i < |WithNewSet(st).groups| ==>
              NoRepeats(WithNewSet(st).groups[i].ptrs)
  {
    var gs' := WithNewSet(st).groups;
    forall x | 0 <= x < |gs'| ensures NoRepeats(gs'[x].ptrs) {
      if x < |st.groups| { assert gs'[x] == st.groups[x]; }
    }
  }

  lemma NewSetVouched(o: Oracle, r: Run)
    requires AllVouched(o, r)
    ensures AllVouched(o, r.(st := WithNewSet(r.st)))
  {
    hide Same, Holds, WithNewSet, Vouched;
    var r' := r.(st := WithNewSet(r.st));
    NewSetHolds(r.st);
    forall x, p | Holds(r'.st.groups, x, p) ensures Vouched(o, r', x, p) {
      VouchedMoves(o, r, r', x, x, p);
    }
  }

  lemma NewSetAnswers(o: Oracle, r: Run)
    requires AllAnswer(o, r)
    ensures AllAnswer(o, r.(st := WithNewSet(r.st)))
  {
    hide Same, Holds, Answers;
    var r' := r.(st := WithNewSet(r.st));
    forall x | 0 <= x < |r'.st.groups| ensures FirstAnswers(o, r', x) {
      if x < |r.st.groups| { AnswersMove(o, r, r', x); }
    }
  }

  lemma NewSetDisjoint(o: Oracle, r: Run)
    requires Disjoint(o, r.st.groups, r.own)
    ensures Disjoint(o, WithNewSet(r.st).groups, r.own)
  {
    hide Holds, WithNewSet;
    NewSetHolds(r.st);
  }

  lemma AddInv(o: Oracle, r: Run, tags: set<Tag>, loc: Loc)
    requires Lawful(o) && Inv(o, r, tags) && !ThreeTags(tags) && loc.tag in tags
    requires loc.p in r.own ==> r.own[loc.p] == loc
    ensures Inv(o, Run(Add(o, r.st, loc), r.own[loc.p := loc]), tags)
  {
    hide Lawful, Inv, Clear, AddPointer, AnsweredFor, VouchedFor, FindFrom, ThreeTags;
    InvKeys(o, r, tags);
    if loc.p in r.st.recs {
      KnownAgain(o, r, tags, loc);
      return;
    }
    FindFromInv(o, r, tags, loc, 0, -1);
    var f := FindSetForPointer(o, r.st, loc);
    var r1 := r.(st := f.st);
    if f.at != -1 {
      AddedInv(o, r1, tags, f.at, loc, loc, false);
    } else {
      NewSetInv(o, r1, tags);
      NewSetClear(o, r1, loc);
      AddedInv(o, r1.(st := WithNewSet(r1.st)), tags, |r1.st.groups|, loc, loc, false);
    }
  }

  lemma InvKeys(o: Oracle, r: Run, tags: set<Tag>)
    requires Inv(o, r, tags)
    ensures r.own.Keys == r.st.recs.Keys
  {
  }

  /** A pointer that is known already comes with its own location, which its record covers. */
  lemma KnownAgain(o: Oracle, r: Run, tags: set<Tag>, loc: Loc)
    requires Inv(o, r, tags) && loc.p in r.st.recs && loc.p in r.own && r.own[loc.p] == loc
    ensures Inv(o, Run(Add(o, r.st, loc), r.own[loc.p := loc]), tags)
  {
    hide Same, Rec.Update, Vouched, FirstAnswers, Partition, NoRepeats, Holds, Disjoint, FindSetForPointer, AddPointer;
    var r' := Run(Add(o, r.st, loc), r.own[loc.p := loc]);
    assert r'.own == r.own && r'.st.groups == r.st.groups && r'.st.recs.Keys == r.st.recs.Keys;
    UpdateNothing(r.st.recs[loc.p], loc);
    assert forall p {:trigger At(r'.st.recs, p)} :: At(r'.st.recs, p) == At(r.st.recs, p);
    SamePartition(r.st, r'.st);
    forall i, p | Holds(r'.st.groups, i, p) ensures Vouched(o, r', i, p) { VouchedMoves(o, r, r', i, i, p); }
    forall x | 0 <= x < |r'.st.groups| ensures FirstAnswers(o, r', x) {
      assert r'.st.groups[x] == r.st.groups[x];
      AnswersMove(o, r, r', x);
    }
  }

  lemma UpdateNothing(rec: Rec, loc: Loc)
    requires rec.tag != Unset && Within(loc, Loc(loc.p, rec.size, rec.GetTag()))
    ensures var r' := rec.Update(loc.size, loc.tag);
            r'.tag != Unset && r'.size == rec.size && r'.GetTag() == rec.GetTag()
  {
  }

  lemma SamePartition(a: State, b: State)
    requires Partition(a) && b.groups == a.groups && b.recs.Keys == a.recs.Keys
    ensures Partition(b)
  {
    hide NoRepeats, Holds;
    forall p | p in b.recs ensures exists i :: Holds(b.groups, i, p) {
      assert p in a.recs;
    }
  }

  lemma NewSetClear(o: Oracle, r: Run, loc: Loc)
    requires forall j {:trigger Clear(o, r, j, loc)} :: 0 <= j < |r.st.groups| ==> Clear(o, r, j, loc)
    ensures WithNewSet(r.st).recs == r.st.recs && |WithNewSet(r.st).groups| == |r.st.groups| + 1
    ensures forall j {:trigger Clear(o, r.(st := WithNewSet(r.st)), j, loc)} :: 0 <= j < |r.st.groups| ==>
              Clear(o, r.(st := WithNewSet(r.st)), j, loc)
  {
    var r' := r.(st := WithNewSet(r.st));
    forall j | 0 <= j < |r.st.groups| ensures Clear(o, r', j, loc) {
      assert Clear(o, r, j, loc) && r'.st.groups[j] == r.st.groups[j];
      assert forall q :: Holds(r'.st.groups, j, q) ==> Holds(r.st.groups, j, q);
    }
  }

  /** A copy is apart from what its original is apart from, and the set that has the original can take it unasked. */
  lemma CopyInv(o: Oracle, r: Run, tags: set<Tag>, source: Ptr, to: Ptr)
    requires Lawful(o) && Inv(o, r, tags) && source in r.own && to !in r.own && Same(o, source, to)
    ensures Inv(o, Run(Copy(o, r.st, source, to), r.own[to := r.own[source].(p := to)]), tags)
  {
    hide Lawful, Same, AllAnswer, AllVouched, Disjoint, NoRepeats, AddPointer, AnsweredFor, VouchedFor, At;
    var i := SetOf(r.st.groups, source);
    var x :| Holds(r.st.groups, x, source);
    assert i < |r.st.groups|;
    assert Holds(r.st.groups, i, source);
    var loc, mine := At(r.st.recs, source).(p := to), r.own[source].(p := to);
    CopyClear(o, r, tags, i, source, to);
    CopyAdmitted(o, r, tags, i, source, to);
    AddedInv(o, r, tags, i, loc, mine, true);
  }

  lemma CopyClear(o: Oracle, r: Run, tags: set<Tag>, i: nat, source: Ptr, to: Ptr)
    requires Lawful(o) && Inv(o, r, tags) && source in r.own && Same(o, source, to) && Holds(r.st.groups, i, source)
    ensures forall j {:trigger Clear(o, r, j, r.own[source].(p := to))} :: 0 <= j < |r.st.groups| && j != i ==>
              Clear(o, r, j, r.own[source].(p := to))
  {
    hide Lawful, Same, AllAnswer, AllVouched, At, NoRepeats;
    var mine := r.own[source].(p := to);
    forall j | 0 <= j < |r.st.groups| && j != i ensures Clear(o, r, j, mine) {
      forall q | Holds(r.st.groups, j, q) ensures q in r.own && Apart(o, r.own[q], mine) {
        MemberKnown(r, tags, i, source);
        MemberKnown(r, tags, j, q);
        SameApart(o, source, to, mine.size, mine.tag, r.own[q]);
        ApartSymmetric(o, mine, r.own[q]);
      }
    }
  }

  lemma CopyAdmitted(o: Oracle, r: Run, tags: set<Tag>, i: nat, source: Ptr, to: Ptr)
    requires Inv(o, r, tags) && source in r.own && to !in r.own && Same(o, source, to) && Holds(r.st.groups, i, source)
    ensures Admitted(o, r, tags, i, At(r.st.recs, source).(p := to), r.own[source].(p := to), true)
  {
    hide Same, AllVouched, Disjoint, At;
    var loc, mine := At(r.st.recs, source).(p := to), r.own[source].(p := to);
    MemberKnown(r, tags, i, source);
    SameTrans(o, source, to, to);
    assert Twin(o, r, i, loc, source) by { AtPointer(r.st.recs, source); }
    var g := r.st.groups[i];
    if g.must {
      assert FirstAnswers(o, r, i) && Answers(o, r, g.ptrs[0], source);
      SameTrans(o, g.ptrs[0], source, to);
    }
  }

  lemma AtPointer(recs: map<Ptr, Rec>, p: Ptr)
    ensures At(recs, p).p == p
  {
  }

  ghost predicate Tagged(a: Access, tags: set<Tag>) { a.Touch? ==> a.loc.tag in tags }

  lemma StepInv(o: Oracle, r: Run, tags: set<Tag>, a: Access)
    requires Lawful(o) && Inv(o, r, tags) && !ThreeTags(tags) && Legal(o, r, a) && Tagged(a, tags)
    ensures Inv(o, Step(o, r, a), tags)
  {
    hide Lawful, Inv, Same, Add, Copy, ThreeTags;
    InvKeys(o, r, tags);
    match a
    case Touch(loc) => AddInv(o, r, tags, loc);
    case Clone(f, t) =>
      if f in r.own && t !in r.own { CopyInv(o, r, tags, f, t); } else { CopyNothing(o, r.st, f, t); }
  }

  lemma CopyNothing(o: Oracle, st: State, f: Ptr, t: Ptr)
    requires f !in st.recs || t in st.recs
    ensures Copy(o, st, f, t) == st
  {
  }

  /** With no three tags in use: the pointers stay partitioned into sets that do not alias. */
  lemma {:induction false} HistoryInv(o: Oracle, h: seq<Access>, tags: set<Tag>)
    requires Lawful(o) && History(o, h) && TagsFrom(h, tags) && !ThreeTags(tags)
    ensures Inv(o, After(o, h), tags)
    decreases |h|
  {
    hide Lawful, Step, Legal, ThreeTags;
    if h != [] {
      var before := h[..|h| - 1];
      assert TagsFrom(before, tags) by {
        forall i | 0 <= i < |before| && before[i].Touch? ensures before[i].loc.tag in tags { assert before[i] == h[i]; }
      }
      HistoryInv(o, before, tags);
      StepInv(o, After(o, before), tags, h[|h| - 1]);
    }
  }
}
