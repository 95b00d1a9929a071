/** What the alias set tracker does to its sets, as functions, and when two sets can never overlap.
    The tracker splits the pointers of a program into sets; pointers of different sets are promised not to alias. */
module AliasSets {
  type Ptr = nat

  /** A metadata tag; 0 is no tag. */
  type Tag = nat

  datatype Loc = Loc(p: Ptr, size: nat, tag: Tag)

  datatype AliasResult = NoAlias | MayAlias | PartialAlias | MustAlias

  type Oracle = (Loc, Loc) -> AliasResult

  // ----- Records and sets -----

  datatype TagState = Unset | Known(t: Tag) | Conflict

  /** What the tracker has on record for a pointer: the largest size it was told, and the tag while that is unique. */
  datatype Rec = Rec(size: nat, tag: TagState)
  {
    function Update(s: nat, t: Tag): Rec {
      Rec(if s > size then s else size,
          if tag == Unset then Known(t) else if tag != Known(t) then Conflict else tag)
    }

    function GetTag(): Tag { if tag.Known? then tag.t else 0 }
  }

  const NEW_REC := Rec(0, Unset)

  /** The pointers of a set, and whether all are known to be the same address. An empty set has been merged away. */
  datatype Group = Group(ptrs: seq<Ptr>, must: bool)

  datatype State = State(groups: seq<Group>, recs: map<Ptr, Rec>)

  const NO_SETS := State([], map[])

  function At(recs: map<Ptr, Rec>, p: Ptr): Loc {
    if p in recs then Loc(p, recs[p].size, recs[p].GetTag()) else Loc(p, 0, 0)
  }

  /** Does the location alias a member? For a must-alias set only the first member is asked. */
  predicate AliasesPointer(o: Oracle, recs: map<Ptr, Rec>, g: Group, loc: Loc) {
    if g.ptrs == [] then false
    else if g.must then o(At(recs, g.ptrs[0]), loc) != NoAlias
    else exists p :: p in g.ptrs && o(loc, At(recs, p)) != NoAlias
  }

  /** Set j is merged into set i. */
  function MergeSetIn(o: Oracle, st: State, i: nat, j: nat): State
    requires i < |st.groups| && j < |st.groups| && i != j
  {
    var a, b := st.groups[i], st.groups[j];
    var must := a.must && b.must && a.ptrs != [] && b.ptrs != [] &&
                o(At(st.recs, a.ptrs[0]), At(st.recs, b.ptrs[0])) == MustAlias;
    st.(groups := st.groups[i := Group(a.ptrs + b.ptrs, must)][j := Group([], b.must)])
  }

  datatype Found = Found(st: State, at: int)

  /** Go over the sets from k on: the first that aliases the location is kept, and the others are merged into it.
      found is -1 as long as there is none. */
  function FindFrom(o: Oracle, st: State, loc: Loc, k: nat, found: int): (f: Found)
    requires k <= |st.groups| && -1 <= found < k
    ensures |f.st.groups| == |st.groups| && f.st.recs == st.recs
    ensures -1 <= f.at < |st.groups|
    decreases |st.groups| - k
  {
    if k == |st.groups| then Found(st, found)
    else if !AliasesPointer(o, st.recs, st.groups[k], loc) then FindFrom(o, st, loc, k + 1, found)
    else if found == -1 then FindFrom(o, st, loc, k + 1, k)
    else FindFrom(o, MergeSetIn(o, st, found, k), loc, k + 1, found)
  }

  function FindSetForPointer(o: Oracle, st: State, loc: Loc): (f: Found)
    ensures |f.st.groups| == |st.groups| && f.st.recs == st.recs && -1 <= f.at < |st.groups|
  {
    FindFrom(o, st, loc, 0, -1)
  }

  /** Put a pointer that is in no set into set i. */
  function AddPointer(o: Oracle, st: State, i: nat, loc: Loc, knownMust: bool): State
    requires i < |st.groups|
  {
    var g := st.groups[i];
    var rec := (if loc.p in st.recs then st.recs[loc.p] else NEW_REC).Update(loc.size, loc.tag);
    if g.must && !knownMust && g.ptrs != [] then
      var first := g.ptrs[0];
      if o(At(st.recs, first), loc) != MustAlias then
        State(st.groups[i := Group(g.ptrs + [loc.p], false)], st.recs[loc.p := rec])
      else
        // The first member of a must-alias set answers for all, so it takes the largest size
        var grown := (if first in st.recs then st.recs[first] else NEW_REC).Update(loc.size, loc.tag);
        State(st.groups[i := Group(g.ptrs + [loc.p], true)], st.recs[first := grown][loc.p := rec])
    else State(st.groups[i := Group(g.ptrs + [loc.p], g.must)], st.recs[loc.p := rec])
  }

  function Add(o: Oracle, st: State, loc: Loc): State {
    if loc.p in st.recs then st.(recs := st.recs[loc.p := st.recs[loc.p].Update(loc.size, loc.tag)])
    else
      var f := FindSetForPointer(o, st, loc);
      if f.at != -1 then AddPointer(o, f.st, f.at, loc, false)
      else AddPointer(o, f.st.(groups := f.st.groups + [Group([], true)]), |f.st.groups|, loc, false)
  }

  /** The first set with p in its list, or the number of sets. */
  function SetOf(gs: seq<Group>, p: Ptr): (i: nat)
    ensures i <= |gs| && (i < |gs| ==> p in gs[i].ptrs)
    ensures forall j {:trigger gs[j]} :: 0 <= j < i ==> p !in gs[j].ptrs
  {
    if gs == [] then 0 else if p in gs[0].ptrs then 0 else 1 + SetOf(gs[1..], p)
  }

  /** A new pointer is a copy of a known one: it goes to the same set unasked. */
  function Copy(o: Oracle, st: State, source: Ptr, to: Ptr): State {
    var i := SetOf(st.groups, source);
    if source !in st.recs || to in st.recs || i == |st.groups| then st
    else AddPointer(o, st, i, At(st.recs, source).(p := to), true)
  }

  // ----- Oracles -----

  predicate Apart(o: Oracle, a: Loc, b: Loc) { o(a, b) == NoAlias }

  /** Nothing tells p from q: at equal size and tag they are apart from the same locations. */
  ghost predicate Same(o: Oracle, p: Ptr, q: Ptr) {
    forall s, t, c {:trigger Apart(o, Loc(p, s, t), c)} {:trigger Apart(o, Loc(q, s, t), c)} ::
      Apart(o, Loc(p, s, t), c) <==> Apart(o, Loc(q, s, t), c)
  }

  /** b is a at a smaller size, or with a tag where a has none. */
  predicate Within(b: Loc, a: Loc) { b.p == a.p && b.size <= a.size && (b.tag == a.tag || a.tag == 0) }

  ghost predicate Symmetric(o: Oracle) { forall a, b {:trigger o(a, b)} :: o(a, b) == o(b, a) }

  ghost predicate Monotone(o: Oracle) {
    forall a, b, c {:trigger Within(b, a), Apart(o, a, c)} :: Within(b, a) && Apart(o, a, c) ==> Apart(o, b, c)
  }

  ghost predicate MustAgree(o: Oracle) {
    forall a, b {:trigger o(a, b)} :: o(a, b) == MustAlias ==> Same(o, a.p, b.p)
  }

  /** An empty access touches nothing. */
  ghost predicate EmptyApart(o: Oracle) {
    forall a: Loc, b: Loc {:trigger o(a, b)} :: a.size == 0 || b.size == 0 ==> o(a, b) == NoAlias
  }

  /** Any other access meets itself. */
  ghost predicate MeetsItself(o: Oracle) {
    forall a: Loc {:trigger Apart(o, a, a)} :: a.size > 0 ==> !Apart(o, a, a)
  }

  ghost predicate Lawful(o: Oracle) {
    Symmetric(o) && Monotone(o) && MustAgree(o) && EmptyApart(o) && MeetsItself(o)
  }

  lemma ApartSymmetric(o: Oracle, a: Loc, b: Loc)
    requires Lawful(o)
    ensures Apart(o, a, b) <==> Apart(o, b, a)
  {
    assert o(a, b) == o(b, a);
  }

  lemma SameApart(o: Oracle, p: Ptr, q: Ptr, s: nat, t: Tag, c: Loc)
    requires Same(o, p, q)
    ensures Apart(o, Loc(p, s, t), c) <==> Apart(o, Loc(q, s, t), c)
  {
  }

  /** Equivalent pointers may be exchanged on both sides. */
  lemma ApartBoth(o: Oracle, p: Ptr, p': Ptr, s: nat, t: Tag, q: Ptr, q': Ptr, s': nat, t': Tag)
    requires Lawful(o) && Same(o, p, p') && Same(o, q, q') && Apart(o, Loc(p', s, t), Loc(q', s', t'))
    ensures Apart(o, Loc(p, s, t), Loc(q, s', t'))
  {
    SameApart(o, p, p', s, t, Loc(q', s', t'));
    ApartSymmetric(o, Loc(p, s, t), Loc(q', s', t'));
    SameApart(o, q, q', s', t', Loc(p, s, t));
    ApartSymmetric(o, Loc(p, s, t), Loc(q, s', t'));
  }

  lemma SameTrans(o: Oracle, p: Ptr, q: Ptr, r: Ptr)
    requires Same(o, p, q) && Same(o, q, r)
    ensures Same(o, p, r) && Same(o, q, p)
  {
  }

  // ----- Histories -----

  datatype Access = Touch(loc: Loc) | Clone(source: Ptr, to: Ptr)

  /** The sets, and the one location each pointer stands for. */
  datatype Run = Run(st: State, own: map<Ptr, Loc>)

  function Step(o: Oracle, r: Run, a: Access): Run {
    match a
    case Touch(loc) => Run(Add(o, r.st, loc), r.own[loc.p := loc])
    case Clone(f, t) =>
      Run(Copy(o, r.st, f, t), if f in r.own && t !in r.own then r.own[t := r.own[f].(p := t)] else r.own)
  }

  /** A pointer keeps its size and tag, and a copy is a copy. */
  ghost predicate Legal(o: Oracle, r: Run, a: Access) {
    match a
    case Touch(loc) => loc.p in r.own ==> r.own[loc.p] == loc
    case Clone(f, t) => Same(o, f, t)
  }

  function After(o: Oracle, h: seq<Access>): Run
    decreases |h|
  {
    if h == [] then Run(NO_SETS, map[]) else Step(o, After(o, h[..|h| - 1]), h[|h| - 1])
  }

  ghost predicate History(o: Oracle, h: seq<Access>)
    decreases |h|
  {
    h == [] || (History(o, h[..|h| - 1]) && Legal(o, After(o, h[..|h| - 1]), h[|h| - 1]))
  }

  ghost predicate TagsFrom(h: seq<Access>, tags: set<Tag>) {
    forall i {:trigger h[i]} :: 0 <= i < |h| && h[i].Touch? ==> h[i].loc.tag in tags
  }

  /** What the tracker is for: pointers of different sets do not alias. */
  ghost predicate Disjoint(o: Oracle, gs: seq<Group>, own: map<Ptr, Loc>) {
    forall i, j, p, q {:trigger Holds(gs, i, p), Holds(gs, j, q)} ::
      Holds(gs, i, p) && Holds(gs, j, q) && i != j && p in own && q in own ==> Apart(o, own[p], own[q])
  }

  predicate Holds(gs: seq<Group>, i: int, p: Ptr) { 0 <= i < |gs| && p in gs[i].ptrs }

  // ----- The invariant, while no three tags are in use -----

  /** Three different tags, apart from no tag. */
  ghost predicate ThreeTags(tags: set<Tag>) {
    exists a, b, c {:trigger a in tags, b in tags, c in tags} ::
      a in tags && b in tags && c in tags && 0 !in {a, b, c} && a != b && a != c && b != c
  }

  /** What is on record for a pointer covers the location it stands for. */
  ghost predicate Fits(r: Run, tags: set<Tag>) {
    && r.own.Keys == r.st.recs.Keys
    && (forall p {:trigger p in r.own} :: p in r.own ==> r.own[p].tag in tags && Within(r.own[p], At(r.st.recs, p)))
    && (forall p {:trigger p in r.st.recs} :: p in r.st.recs ==> r.st.recs[p].tag != Unset)
  }

  ghost predicate NoRepeats(s: seq<Ptr>) { forall i, j {:trigger s[i], s[j]} :: 0 <= i < j < |s| ==> s[i] != s[j] }

  /** Every known pointer is in the list of exactly one set, once. */
  ghost predicate Partition(st: State) {
    && (forall i, p {:trigger Holds(st.groups, i, p)} :: Holds(st.groups, i, p) ==> p in st.recs)
    && (forall p {:trigger p in st.recs} :: p in st.recs ==> exists i :: Holds(st.groups, i, p))
    && (forall i, j, p {:trigger Holds(st.groups, i, p), Holds(st.groups, j, p)} ::
          Holds(st.groups, i, p) && Holds(st.groups, j, p) ==> i == j)
    && (forall i {:trigger st.groups[i]} :: 0 <= i < |st.groups| ==> NoRepeats(st.groups[i].ptrs))
  }

  /** Member m of set i is the same address as p. */
  ghost predicate Alike(o: Oracle, r: Run, i: int, p: Ptr, m: Ptr) {
    Holds(r.st.groups, i, m) && m in r.own && Same(o, p, m)
  }

  /** The record of p is the location of member m, unless its tag is lost. */
  ghost predicate Voucher(o: Oracle, r: Run, i: int, p: Ptr, m: Ptr) {
    && Alike(o, r, i, p, m) && r.own[m].size == At(r.st.recs, p).size
    && (At(r.st.recs, p).tag == 0 || r.own[m].tag == At(r.st.recs, p).tag)
  }

  /** Some access of a member at the same address is not explained by tag t. */
  ghost predicate Beside(o: Oracle, r: Run, i: int, p: Ptr, t: Tag) {
    exists m :: Witness(o, r, i, p, t, m)
  }

  ghost predicate Witness(o: Oracle, r: Run, i: int, p: Ptr, t: Tag, m: Ptr) {
    Alike(o, r, i, p, m) && r.own[m].size > 0 && (r.own[m].tag == 0 || r.own[m].tag != t)
  }

  /** The size on record for p is that of a member at its address, and so is the tag; and no tag is on record only
      if no single tag would do. */
  ghost predicate Vouched(o: Oracle, r: Run, i: int, p: Ptr) {
    && (exists m :: Voucher(o, r, i, p, m))
    && (At(r.st.recs, p).tag == 0 && At(r.st.recs, p).size > 0 ==>
          forall t {:trigger Beside(o, r, i, p, t)} :: Beside(o, r, i, p, t))
  }

  ghost predicate AllVouched(o: Oracle, r: Run) {
    forall i, p {:trigger Holds(r.st.groups, i, p)} :: Holds(r.st.groups, i, p) ==> Vouched(o, r, i, p)
  }

  /** The record of f, a pointer at the same address, covers p. */
  ghost predicate Answers(o: Oracle, r: Run, f: Ptr, p: Ptr) {
    Same(o, f, p) && p in r.own && Within(r.own[p].(p := f), At(r.st.recs, f))
  }

  /** The first member of a must-alias set can answer for the set. */
  ghost predicate FirstAnswers(o: Oracle, r: Run, i: int) {
    0 <= i < |r.st.groups| && r.st.groups[i].must && r.st.groups[i].ptrs != [] ==>
      forall p {:trigger Holds(r.st.groups, i, p)} :: Holds(r.st.groups, i, p) ==> Answers(o, r, r.st.groups[i].ptrs[0], p)
  }

  ghost predicate AllAnswer(o: Oracle, r: Run) {
    forall i {:trigger r.st.groups[i]} :: 0 <= i < |r.st.groups| ==> FirstAnswers(o, r, i)
  }

  ghost predicate Inv(o: Oracle, r: Run, tags: set<Tag>) {
    && Fits(r, tags) && Partition(r.st) && AllVouched(o, r) && AllAnswer(o, r) && Disjoint(o, r.st.groups, r.own)
  }
}
