/** When sets never alias: exactly when no three different metadata tags are in use. With three there is an oracle that
    compares addresses and tags, and a history of five pointers after which two sets alias. */
module AliasSetsTags {
  import opened AliasSets
  import opened AliasSetsProof

  ghost predicate AlwaysDisjoint(tags: set<Tag>) {
    forall o: Oracle, h: seq<Access> {:trigger After(o, h)} :: Lawful(o) && History(o, h) && TagsFrom(h, tags) ==>
      Disjoint(o, After(o, h).st.groups, After(o, h).own)
  }

  // ----- The oracle -----

  /** Three tags of a type tree: b and c are on one path, a is on another. All other tags are above them. */
  datatype Tags = Tags(a: Tag, b: Tag, c: Tag)
  {
    predicate Distinct() { a != 0 && b != 0 && c != 0 && a != b && a != c && b != c }

    predicate Incompatible(x: Tag, y: Tag) { (x == a && y in {b, c}) || (y == a && x in {b, c}) }
  }

  /** Pointers 0 to 3 are one address, and all others are two bytes further. */
  function Address(p: Ptr): nat { if p < 4 then 0 else 2 }

  function TypeBased(s: Tags, x: Loc, y: Loc): AliasResult {
    if x.size == 0 || y.size == 0 || s.Incompatible(x.tag, y.tag) then NoAlias
    else if Address(x.p) == Address(y.p) then MustAlias
    else if Address(x.p) < Address(y.p) + y.size && Address(y.p) < Address(x.p) + x.size then PartialAlias
    else NoAlias
  }

  function By(s: Tags): Oracle { (x: Loc, y: Loc) => TypeBased(s, x, y) }

  lemma TypeBasedMonotone(s: Tags, x: Loc, y: Loc, c: Loc)
    requires s.Distinct() && Within(y, x) && TypeBased(s, x, c) == NoAlias
    ensures TypeBased(s, y, c) == NoAlias
  {
  }

  lemma TypeBasedIsLawful(s: Tags)
    requires s.Distinct()
    ensures Lawful(By(s))
  {
    var o := By(s);
    forall x, y, c | Within(y, x) && Apart(o, x, c) ensures Apart(o, y, c) {
      TypeBasedMonotone(s, x, y, c);
    }
    forall x, y | o(x, y) == MustAlias ensures Same(o, x.p, y.p) {
      forall z, t, c ensures Apart(o, Loc(x.p, z, t), c) <==> Apart(o, Loc(y.p, z, t), c) {
      }
    }
  }

  // ----- The history -----

  function Touches(s: Tags): seq<Access> {
    [Touch(Loc(0, 1, s.a)), Touch(Loc(1, 3, s.b)), Touch(Loc(2, 1, s.c)), Touch(Loc(3, 1, s.a)), Touch(Loc(4, 1, s.b))]
  }

  /** The records and sets after the first n pointers. */
  function Stage(s: Tags, n: nat): State {
    match n
    case 0 => NO_SETS
    case 1 => State([Group([0], true)], map[0 := Rec(1, Known(s.a))])
    case 2 => State([Group([0], true), Group([1], true)], map[0 := Rec(1, Known(s.a)), 1 := Rec(3, Known(s.b))])
    case 3 => State([Group([0], true), Group([1, 2], true)],
                    map[0 := Rec(1, Known(s.a)), 1 := Rec(3, Conflict), 2 := Rec(1, Known(s.c))])
    case 4 => State([Group([0, 1, 2, 3], true), Group([], true)],
                    map[0 := Rec(1, Known(s.a)), 1 := Rec(3, Conflict), 2 := Rec(1, Known(s.c)), 3 := Rec(1, Known(s.a))])
    case _ => State([Group([0, 1, 2, 3], true), Group([], true), Group([4], true)],
                    map[0 := Rec(1, Known(s.a)), 1 := Rec(3, Conflict), 2 := Rec(1, Known(s.c)), 3 := Rec(1, Known(s.a)),
                        4 := Rec(1, Known(s.b))])
  }

  lemma First(s: Tags)
    ensures Add(By(s), Stage(s, 0), Loc(0, 1, s.a)) == Stage(s, 1)
  {
    var r := Add(By(s), Stage(s, 0), Loc(0, 1, s.a));
    var none: seq<Ptr> := [];
    assert none + [0] == [0];
    assert r.groups == [Group([0], true)];
    assert r.recs == Stage(s, 1).recs;
  }

  /** The second is at the address of the first, but of an incompatible type. */
  lemma Second(s: Tags)
    requires s.Distinct()
    ensures Add(By(s), Stage(s, 1), Loc(1, 3, s.b)) == Stage(s, 2)
  {
    var o, st, loc := By(s), Stage(s, 1), Loc(1, 3, s.b);
    assert FindFrom(o, st, loc, 1, -1) == Found(st, -1);
    assert FindFrom(o, st, loc, 0, -1) == Found(st, -1);
    var r := Add(o, st, loc);
    var none: seq<Ptr> := [];
    assert none + [1] == [1];
    assert r.groups == [Group([0], true), Group([1], true)];
    assert r.recs == Stage(s, 2).recs;
  }

  /** The third pointer clears the tag on record for the second. */
  lemma Third(s: Tags)
    requires s.Distinct()
    ensures Add(By(s), Stage(s, 2), Loc(2, 1, s.c)) == Stage(s, 3)
  {
    var o, st, loc := By(s), Stage(s, 2), Loc(2, 1, s.c);
    assert FindFrom(o, st, loc, 2, 1) == Found(st, 1);
    assert FindFrom(o, st, loc, 1, -1) == Found(st, 1);
    assert FindFrom(o, st, loc, 0, -1) == Found(st, 1);
    var r := Add(o, st, loc);
    assert [1] + [2] == [1, 2];
    assert r.groups == [Group([0], true), Group([1, 2], true)];
    assert r.recs == Stage(s, 3).recs;
  }

  lemma Joined(s: Tags)
    requires s.Distinct()
    ensures MergeSetIn(By(s), Stage(s, 3), 0, 1) ==
            Stage(s, 3).(groups := [Group([0, 1, 2], true), Group([], true)])
  {
    var merged := MergeSetIn(By(s), Stage(s, 3), 0, 1);
    assert [0] + [1, 2] == [0, 1, 2];
    assert merged.groups[0] == Group([0, 1, 2], true);
    assert merged.groups == [Group([0, 1, 2], true), Group([], true)];
  }

  /** The fourth joins the two sets, which stay a must-alias set although its first member is the shorter one. */
  lemma Fourth(s: Tags)
    requires s.Distinct()
    ensures Add(By(s), Stage(s, 3), Loc(3, 1, s.a)) == Stage(s, 4)
  {
    hide MergeSetIn;
    var o, st, loc := By(s), Stage(s, 3), Loc(3, 1, s.a);
    var merged := MergeSetIn(o, st, 0, 1);
    Joined(s);
    assert FindFrom(o, merged, loc, 2, 0) == Found(merged, 0);
    assert FindFrom(o, st, loc, 1, 0) == Found(merged, 0);
    assert FindFrom(o, st, loc, 0, -1) == Found(merged, 0);
    var r := Add(o, st, loc);
    assert [0, 1, 2] + [3] == [0, 1, 2, 3];
    assert r.groups == [Group([0, 1, 2, 3], true), Group([], true)];
    assert r.recs == Stage(s, 4).recs;
  }

  /** The fifth aliases the second, but the first is asked. */
  lemma Fifth(s: Tags)
    requires s.Distinct()
    ensures Add(By(s), Stage(s, 4), Loc(4, 1, s.b)) == Stage(s, 5)
  {
    var o, st, loc := By(s), Stage(s, 4), Loc(4, 1, s.b);
    assert FindFrom(o, st, loc, 2, -1) == Found(st, -1);
    assert FindFrom(o, st, loc, 1, -1) == Found(st, -1);
    assert FindFrom(o, st, loc, 0, -1) == Found(st, -1);
    var r := Add(o, st, loc);
    var none: seq<Ptr> := [];
    assert none + [4] == [4];
    assert r.groups == [Group([0, 1, 2, 3], true), Group([], true), Group([4], true)];
    assert r.recs == Stage(s, 5).recs;
  }

  function OwnUpTo(s: Tags, n: nat): map<Ptr, Loc>
    requires n <= 5
  {
    if n == 0 then map[] else OwnUpTo(s, n - 1)[n - 1 := Touches(s)[n - 1].loc]
  }

  lemma AddAt(s: Tags, n: nat)
    requires s.Distinct() && n < 5
    ensures Add(By(s), Stage(s, n), Touches(s)[n].loc) == Stage(s, n + 1)
    ensures Touches(s)[n].loc.p == n
  {
    hide Add;
    First(s);
    Second(s);
    Third(s);
    Fourth(s);
    Fifth(s);
    assert n == 0 || n == 1 || n == 2 || n == 3 || n == 4;
  }

  lemma OwnKeys(s: Tags, n: nat)
    requires n <= 5
    ensures forall p {:trigger p in OwnUpTo(s, n)} :: p in OwnUpTo(s, n) ==> p < n
  {
  }

  lemma {:induction false} StagesFollow(s: Tags, n: nat)
    requires s.Distinct() && n <= 5
    ensures After(By(s), Touches(s)[..n]) == Run(Stage(s, n), OwnUpTo(s, n))
    ensures History(By(s), Touches(s)[..n])
    decreases n
  {
    hide Stage, Add, Touches;
    if n == 0 {
      StageZero(s);
    } else {
      StagesFollow(s, n - 1);
      AddAt(s, n - 1);
      OwnKeys(s, n - 1);
      TouchesAre(s, n);
    }
  }

  lemma StageZero(s: Tags)
    ensures Stage(s, 0) == NO_SETS && Touches(s)[..0] == []
  {
  }

  lemma TouchesAre(s: Tags, n: nat)
    requires 0 < n <= 5
    ensures var h := Touches(s)[..n];
            |h| == n && h[..n - 1] == Touches(s)[..n - 1] && h[n - 1] == Touches(s)[n - 1] && h[n - 1].Touch?
  {
  }

  /** Three tags: the sets of pointers 1 and 4 are different and alias. */
  lemma ThreeTagsFail(s: Tags)
    requires s.Distinct()
    ensures var o := By(s); var h := Touches(s);
            && Lawful(o) && History(o, h) && TagsFrom(h, {s.a, s.b, s.c})
            && !Disjoint(o, After(o, h).st.groups, After(o, h).own)
  {
    var o, h := By(s), Touches(s);
    TypeBasedIsLawful(s);
    assert h[..5] == h;
    StagesFollow(s, 5);
    TwoSetsAlias(s);
  }

  lemma TwoSetsAlias(s: Tags)
    requires s.Distinct()
    ensures !Disjoint(By(s), Stage(s, 5).groups, OwnUpTo(s, 5))
  {
    var gs, own := Stage(s, 5).groups, OwnUpTo(s, 5);
    assert Holds(gs, 0, 1) && Holds(gs, 2, 4);
    OwnAt(s);
    assert !Apart(By(s), own[1], own[4]);
  }

  lemma OwnAt(s: Tags)
    ensures var own := OwnUpTo(s, 5);
            1 in own && 4 in own && own[1] == Loc(1, 3, s.b) && own[4] == Loc(4, 1, s.b)
  {
    assert OwnUpTo(s, 2)[1] == Loc(1, 3, s.b);
    assert OwnUpTo(s, 3)[1] == Loc(1, 3, s.b);
    assert OwnUpTo(s, 4)[1] == Loc(1, 3, s.b);
  }

  /** The promise of the tracker holds for all oracles and histories exactly when no three different tags are in use. */
  lemma ThirdTagDecides(tags: set<Tag>)
    ensures AlwaysDisjoint(tags) <==> !ThreeTags(tags)
  {
    hide Lawful, History, After, Disjoint;
    if ThreeTags(tags) {
      var a, b, c :| a in tags && b in tags && c in tags && 0 !in {a, b, c} && a != b && a != c && b != c;
      var s := Tags(a, b, c);
      ThreeTagsFail(s);
      var o, h := By(s), Touches(s);
      assert TagsFrom(h, tags) by {
        forall i | 0 <= i < |h| && h[i].Touch? ensures h[i].loc.tag in tags { assert h[i].loc.tag in {a, b, c}; }
      }
      assert !AlwaysDisjoint(tags) by { assert !Disjoint(o, After(o, h).st.groups, After(o, h).own); }
    } else {
      forall o: Oracle, h: seq<Access> | Lawful(o) && History(o, h) && TagsFrom(h, tags)
        ensures Disjoint(o, After(o, h).st.groups, After(o, h).own)
      {
        HistoryInv(o, h, tags);
      }
    }
  }
}
