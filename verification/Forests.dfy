// Counted objects in parent and child relation, as values: what the counting amounts to.
module Forests {
  datatype Option<T> = None | Some(value: T)

  datatype Node<T> = Node(count: nat, children: seq<T>, parent: Option<T>)

  type Forest<T> = map<T, Node<T>>

  // ---------------------------------------------------------------------------
  // The operations

  function Created<T>(f: Forest<T>, o: T): Forest<T> { f[o := Node(1, [], None)] }

  function Referenced<T>(f: Forest<T>, o: T): Forest<T>
    requires o in f
  {
    f[o := f[o].(count := f[o].count + 1)]
  }

  function Adopted<T>(f: Forest<T>, p: T, c: T): Forest<T>
    requires p in f && c in f && p != c
  {
    f[p := f[p].(children := f[p].children + [c])][c := f[c].(parent := Some(p))]
  }

  function Without<T(==)>(s: seq<T>, x: T): (r: seq<T>)
    ensures forall y :: y in r ==> y in s
  {
    if s == [] then [] else if s[0] == x then s[1..] else [s[0]] + Without(s[1..], x)
  }

  // Parents are there and know their children.
  ghost predicate Upward<T>(f: Forest<T>) {
    forall x :: x in f && f[x].parent.Some? ==> f[x].parent.value in f && x in f[f[x].parent.value].children
  }

  // Destroy o, then tell its parent.
  function Destroyed<T(==)>(f: Forest<T>, o: T): (g: Forest<T>)
    requires o in f && f[o].children == [] && Upward(f)
    ensures g.Keys <= f.Keys - {o}
    decreases |f|, 1
  {
    assert f.Keys == (f - {o}).Keys + {o};
    if f[o].parent.None? then f - {o} else Abandoned(f - {o}, f[o].parent.value, o)
  }

  // p loses its child c, which is already gone, and goes too if nothing else keeps it.
  function Abandoned<T(==)>(f: Forest<T>, p: T, c: T): (g: Forest<T>)
    requires p in f && c !in f && Upward(f)
    ensures g.Keys <= f.Keys
    decreases |f|, 2
  {
    if c !in f[p].children then f
    else
      var left := Without(f[p].children, c);
      WithoutKeeps(f[p].children, c);
      var g := f[p := f[p].(children := left)];
      assert g.Keys == f.Keys;
      assert |g| == |g.Keys| == |f|;
      if left == [] && f[p].count == 0 then Destroyed(g, p) else g
  }

  function Released<T(==)>(f: Forest<T>, o: T): Forest<T>
    requires o in f && f[o].count > 0 && Upward(f)
  {
    var g := f[o := f[o].(count := f[o].count - 1)];
    if g[o].count == 0 && g[o].children == [] then Destroyed(g, o) else g
  }

  lemma {:induction false} WithoutKeeps<T>(s: seq<T>, x: T)
    ensures forall y :: y in s && y != x ==> y in Without(s, x)
    ensures x !in s ==> Without(s, x) == s
    ensures NoRepeats(s) ==> NoRepeats(Without(s, x)) && x !in Without(s, x)
  {
    if s != [] && s[0] != x {
      WithoutKeeps(s[1..], x);
      if NoRepeats(s) {
        var r := Without(s[1..], x);
        assert NoRepeats(s[1..]);
        forall i | 0 <= i < |r|
          ensures r[i] != s[0]
        {
          assert r[i] in s[1..];
        }
      }
    }
  }

  ghost predicate NoRepeats<T>(s: seq<T>) { forall i, j :: 0 <= i < j < |s| ==> s[i] != s[j] }

  // ---------------------------------------------------------------------------
  // A forest: links agree both ways, nothing is its own ancestor, and whatever is there is kept by
  // a count or by a child.

  ghost predicate Downward<T>(f: Forest<T>) {
    && (forall x, c :: x in f && c in f[x].children ==> c in f && f[c].parent == Some(x))
    && (forall x :: x in f ==> NoRepeats(f[x].children))
  }

  ghost predicate Kept<T>(f: Forest<T>) { forall x :: x in f ==> f[x].count > 0 || f[x].children != [] }

  ghost predicate Ranked<T>(f: Forest<T>, rank: map<T, nat>) {
    forall x :: x in f ==>
        x in rank && (f[x].parent.Some? ==> f[x].parent.value in rank && rank[f[x].parent.value] < rank[x])
  }

  ghost predicate IsForest<T>(f: Forest<T>, rank: map<T, nat>) {
    Upward(f) && Downward(f) && Kept(f) && Ranked(f, rank)
  }

  // a is b or one of its ancestors.
  ghost predicate Above<T>(f: Forest<T>, rank: map<T, nat>, a: T, b: T)
    requires Upward(f) && Ranked(f, rank) && b in f
    decreases rank[b]
  {
    a == b || (f[b].parent.Some? && Above(f, rank, a, f[b].parent.value))
  }

  // Somebody still counts on x or on something below it.
  ghost predicate Needed<T>(f: Forest<T>, rank: map<T, nat>, x: T)
    requires Upward(f) && Ranked(f, rank)
  {
    exists y :: y in f && f[y].count > 0 && Above(f, rank, x, y)
  }

  // What a descent from x can still meet.
  ghost function Higher<T>(f: Forest<T>, rank: map<T, nat>, x: T): set<T>
    requires Ranked(f, rank) && x in f
  {
    set y | y in f && rank[y] > rank[x]
  }

  lemma {:induction false} ChildAbove<T>(f: Forest<T>, rank: map<T, nat>, x: T, c: T, y: T)
    requires Upward(f) && Ranked(f, rank) && c in f && y in f && f[c].parent == Some(x) && Above(f, rank, c, y)
    ensures Above(f, rank, x, y)
    decreases rank[y]
  {
    if c != y {
      ChildAbove(f, rank, x, c, f[y].parent.value);
    }
  }

  // In a forest everything is needed.
  lemma {:induction false} KeptIsNeeded<T>(f: Forest<T>, rank: map<T, nat>, x: T)
    requires IsForest(f, rank) && x in f
    ensures Needed(f, rank, x)
    decreases Higher(f, rank, x)
  {
    if f[x].count == 0 {
      var c := f[x].children[0];
      assert c in f[x].children;
      HigherChild(f, rank, x, c);
      KeptIsNeeded(f, rank, c);
      var y :| y in f && f[y].count > 0 && Above(f, rank, c, y);
      ChildAbove(f, rank, x, c, y);
    }
  }

  // f and g have the same parents where both are.
  ghost predicate Within<T>(g: Forest<T>, f: Forest<T>) {
    forall x :: x in g ==> x in f && g[x].parent == f[x].parent && g[x].count == f[x].count
  }

  lemma {:induction false} AboveWithin<T>(g: Forest<T>, f: Forest<T>, rank: map<T, nat>, a: T, b: T)
    requires Upward(f) && Ranked(f, rank) && Upward(g) && Within(g, f) && b in g
    ensures Ranked(g, rank) && (Above(g, rank, a, b) <==> Above(f, rank, a, b))
    decreases rank[b]
  {
    if g[b].parent.Some? {
      AboveWithin(g, f, rank, a, g[b].parent.value);
    }
  }

  // Leaving out what nobody counts on does not change who is needed.
  lemma {:induction false} NeededWithin<T>(g: Forest<T>, f: Forest<T>, rank: map<T, nat>, x: T)
    requires Upward(f) && Ranked(f, rank) && Upward(g) && Within(g, f)
    requires forall y :: y in f && y !in g ==> f[y].count == 0
    ensures Ranked(g, rank) && (Needed(g, rank, x) <==> Needed(f, rank, x))
  {
    forall y | y in g
      ensures Above(g, rank, x, y) <==> Above(f, rank, x, y)
    {
      AboveWithin(g, f, rank, x, y);
    }
  }

  lemma {:induction false} ChildlessIsAbove<T>(f: Forest<T>, rank: map<T, nat>, o: T, y: T)
    requires Upward(f) && Ranked(f, rank) && o in f && f[o].children == [] && y in f && Above(f, rank, o, y)
    ensures y == o
    decreases rank[y]
  {
    if y != o {
      ChildlessIsAbove(f, rank, o, f[y].parent.value);
    }
  }

  // The links below are right except that p still lists c, which is gone.
  ghost predicate DownwardBut<T>(f: Forest<T>, p: T, c: T) {
    && (forall x, d :: x in f && d in f[x].children && !(x == p && d == c) ==> d in f && f[d].parent == Some(x))
    && (forall x :: x in f ==> NoRepeats(f[x].children))
  }

  ghost predicate KeptBut<T>(f: Forest<T>, o: T) { forall x :: x in f && x != o ==>
      f[x].count > 0 || f[x].children != [] }

  lemma {:induction false} AllNeeded<T>(f: Forest<T>, rank: map<T, nat>)
    requires IsForest(f, rank)
    ensures forall x :: x in f ==> Needed(f, rank, x)
  {
    forall x | x in f
      ensures Needed(f, rank, x)
    {
      KeptIsNeeded(f, rank, x);
    }
  }

  lemma {:induction false} AllNeededWithin<T>(g: Forest<T>, f: Forest<T>, rank: map<T, nat>)
    requires Upward(f) && Ranked(f, rank) && Upward(g) && Within(g, f)
    requires forall y :: y in f && y !in g ==> f[y].count == 0
    ensures Ranked(g, rank) && forall x :: x in g ==> (Needed(g, rank, x) <==> Needed(f, rank, x))
  {
    assert Ranked(g, rank);
    forall x | x in g
      ensures Needed(g, rank, x) <==> Needed(f, rank, x)
    {
      NeededWithin(g, f, rank, x);
    }
  }

  lemma {:induction false} ChildlessNotNeeded<T>(f: Forest<T>, rank: map<T, nat>, o: T)
    requires Upward(f) && Ranked(f, rank) && o in f && f[o].children == [] && f[o].count == 0
    ensures !Needed(f, rank, o)
  {
    forall y | y in f && f[y].count > 0
      ensures !Above(f, rank, o, y)
    {
      if Above(f, rank, o, y) {
        ChildlessIsAbove(f, rank, o, y);
      }
    }
  }

  lemma {:induction false} WithoutObjectUpward<T>(f: Forest<T>, o: T)
    requires Upward(f) && o in f && f[o].children == []
    ensures Upward(f - {o})
  {
    forall x | x in f - {o} && f[x].parent.Some?
      ensures f[x].parent.value in f - {o}
    {
      assert x in f[f[x].parent.value].children;
    }
  }

  lemma {:induction false} WithoutObjectDownward<T>(f: Forest<T>, o: T)
    requires Downward(f) && o in f
    ensures match f[o].parent case None => Downward(f - {o}) case Some(p) => DownwardBut(f - {o}, p, o)
  {
    forall x, d | x in f - {o} && d in f[x].children
      ensures d in f && f[d].parent == Some(x)
    {
    }
  }

  lemma {:induction false} WithoutObject<T>(f: Forest<T>, rank: map<T, nat>, o: T)
    requires Upward(f) && Downward(f) && Ranked(f, rank) && KeptBut(f, o)
    requires o in f && f[o].children == []
    ensures var g := f - {o};
            && f.Keys == g.Keys + {o} && |g| < |f| && Upward(g) && Ranked(g, rank) && Kept(g) && Within(g, f)
            && match f[o].parent
               case None => Downward(g)
               case Some(p) => p in g && DownwardBut(g, p, o) && o in g[p].children
  {
    hide Downward, DownwardBut;
    var g := f - {o};
    assert f.Keys == g.Keys + {o};
    WithoutObjectUpward(f, o);
    WithoutObjectDownward(f, o);
    if f[o].parent.Some? {
      assert o in f[f[o].parent.value].children;
    }
  }

  lemma {:induction false} WithoutChildUpward<T>(f: Forest<T>, p: T, c: T, left: seq<T>)
    requires Upward(f) && p in f && c !in f && forall y :: y in f[p].children && y != c ==> y in left
    ensures Upward(f[p := f[p].(children := left)])
  {
    var g := f[p := f[p].(children := left)];
    forall x | x in g && g[x].parent.Some?
      ensures g[x].parent.value in g && x in g[g[x].parent.value].children
    {
      assert x in f[f[x].parent.value].children;
    }
  }

  lemma {:induction false} WithoutChildDownward<T>(f: Forest<T>, p: T, c: T, left: seq<T>)
    requires DownwardBut(f, p, c) && p in f && c !in left && NoRepeats(left) && forall y :: y in left ==>
        y in f[p].children
    ensures Downward(f[p := f[p].(children := left)])
  {
    var g := f[p := f[p].(children := left)];
    forall x, d | x in g && d in g[x].children
      ensures d in g && g[d].parent == Some(x)
    {
      assert d in f[x].children;
    }
  }

  lemma {:induction false} WithoutChild<T>(f: Forest<T>, rank: map<T, nat>, p: T, c: T)
    requires Upward(f) && DownwardBut(f, p, c) && Ranked(f, rank) && Kept(f)
    requires p in f && c !in f && c in f[p].children
    ensures var g := f[p := f[p].(children := Without(f[p].children, c))];
            g.Keys == f.Keys && |g| == |f| && Upward(g) && Downward(g) && Ranked(g, rank) && KeptBut(g, p)
                && Within(g, f)
  {
    hide Upward, Downward, NoRepeats, Without;
    WithoutKeeps(f[p].children, c);
    var g := f[p := f[p].(children := Without(f[p].children, c))];
    assert g.Keys == f.Keys;
    assert |g| == |g.Keys| == |f|;
    WithoutChildUpward(f, p, c, Without(f[p].children, c));
    WithoutChildDownward(f, p, c, Without(f[p].children, c));
  }

  // Destroying an object nobody counts on destroys exactly what nobody counts on any more.
  lemma {:induction false} DestroyedExactly<T>(f: Forest<T>, rank: map<T, nat>, o: T)
    requires Upward(f) && Downward(f) && Ranked(f, rank) && KeptBut(f, o)
    requires o in f && f[o].children == [] && f[o].count == 0
    ensures IsForest(Destroyed(f, o), rank) && Within(Destroyed(f, o), f)
    ensures forall x :: x in f ==> (x in Destroyed(f, o) <==> Needed(f, rank, x))
    decreases |f|, 1
  {
    hide Upward, Downward, DownwardBut, Ranked, Kept, KeptBut, Needed;
    var g := f - {o};
    WithoutObject(f, rank, o);
    ChildlessNotNeeded(f, rank, o);
    AllNeededWithin(g, f, rank);
    if f[o].parent.None? {
      AllNeeded(g, rank);
    } else {
      AbandonedExactly(g, rank, f[o].parent.value, o);
    }
  }

  lemma {:induction false} AbandonedExactly<T>(f: Forest<T>, rank: map<T, nat>, p: T, c: T)
    requires Upward(f) && DownwardBut(f, p, c) && Ranked(f, rank) && Kept(f)
    requires p in f && c !in f && c in f[p].children
    ensures IsForest(Abandoned(f, p, c), rank) && Within(Abandoned(f, p, c), f)
    ensures forall x :: x in f ==> (x in Abandoned(f, p, c) <==> Needed(f, rank, x))
    decreases |f|, 2
  {
    hide Upward, Downward, DownwardBut, Ranked, Needed, Without;
    var left := Without(f[p].children, c);
    var g := f[p := f[p].(children := left)];
    WithoutChild(f, rank, p, c);
    AllNeededWithin(g, f, rank);
    if left == [] && f[p].count == 0 {
      DestroyedExactly(g, rank, p);
    } else {
      AllNeeded(g, rank);
    }
  }

  // Releasing a reference frees exactly the objects that nobody counts on any more: those with no
  // count on themselves or on anything below them.
  lemma {:induction false} ReleasedExactly<T>(f: Forest<T>, rank: map<T, nat>, o: T)
    requires IsForest(f, rank) && o in f && f[o].count > 0
    ensures IsForest(Released(f, o), rank)
    ensures var g := f[o := f[o].(count := f[o].count - 1)];
            && Upward(g) && Ranked(g, rank) && Within(Released(f, o), g)
            && forall x :: x in f ==> (x in Released(f, o) <==> Needed(g, rank, x))
  {
    hide Needed, Destroyed;
    var g := f[o := f[o].(count := f[o].count - 1)];
    assert Upward(g) && Downward(g) && Ranked(g, rank) && KeptBut(g, o);
    if g[o].count == 0 && g[o].children == [] {
      DestroyedExactly(g, rank, o);
    } else {
      AllNeeded(g, rank);
    }
  }

  // ---------------------------------------------------------------------------
  // Runs

  datatype Event<T> = New(o: T) | AddRef(o: T) | Release(o: T) | AddChild(p: T, c: T)

  ghost predicate Enabled<T>(f: Forest<T>, rank: map<T, nat>, e: Event<T>)
    requires Upward(f) && Ranked(f, rank)
  {
    match e
    case New(o) => o !in f
    case AddRef(o) => o in f
    case Release(o) => o in f && f[o].count > 0
    case AddChild(p, c) => p in f && c in f && f[c].parent.None? && !Above(f, rank, c, p)
  }

  function After<T(==)>(f: Forest<T>, e: Event<T>): Forest<T>
    requires Upward(f)
    requires match e case New(_) => true case AddRef(o) => o in f
                     case Release(o) => o in f && f[o].count > 0 case AddChild(p, c) => p in f && c in f && p != c
  {
    match e
    case New(o) => Created(f, o)
    case AddRef(o) => Referenced(f, o)
    case Release(o) => Released(f, o)
    case AddChild(p, c) => Adopted(f, p, c)
  }

  // A subtree that is hung below p is ranked above it.
  ghost function RankAfter<T>(f: Forest<T>, rank: map<T, nat>, e: Event<T>): map<T, nat>
    requires Upward(f) && Ranked(f, rank) && Enabled(f, rank, e)
  {
    match e
    case New(o) => rank[o := 0]
    case AddChild(p, c) => map x | x in f :: if Above(f, rank, c, x) then rank[x] + rank[p] + 1 else rank[x]
    case _ => rank
  }

  lemma {:induction false} AdoptedIsRanked<T>(f: Forest<T>, rank: map<T, nat>, p: T, c: T)
    requires IsForest(f, rank) && Enabled(f, rank, AddChild(p, c))
    ensures Ranked(Adopted(f, p, c), RankAfter(f, rank, AddChild(p, c)))
  {
    hide Downward, Kept;
    var g, r := Adopted(f, p, c), RankAfter(f, rank, AddChild(p, c));
    forall x | x in g && g[x].parent.Some?
      ensures g[x].parent.value in r && r[g[x].parent.value] < r[x]
    {
      if x != c {
        assert Above(f, rank, c, x) <==> Above(f, rank, c, f[x].parent.value);
      }
    }
  }

  lemma {:induction false} AdoptedUpward<T>(f: Forest<T>, p: T, c: T)
    requires Upward(f) && p in f && c in f && f[c].parent.None? && p != c
    ensures Upward(Adopted(f, p, c))
  {
    var g := Adopted(f, p, c);
    forall x | x in g && g[x].parent.Some?
      ensures g[x].parent.value in g && x in g[g[x].parent.value].children
    {
      assert x != c ==> x in f[f[x].parent.value].children;
    }
  }

  lemma {:induction false} AdoptedDownward<T>(f: Forest<T>, p: T, c: T)
    requires Downward(f) && p in f && c in f && f[c].parent.None? && p != c
    ensures Downward(Adopted(f, p, c))
  {
    var g := Adopted(f, p, c);
    assert c !in f[p].children;
    forall x, d | x in g && d in g[x].children
      ensures d in g && g[d].parent == Some(x)
    {
      assert d in f[x].children || (x == p && d == c);
    }
  }

  lemma {:induction false} NewIsForest<T>(f: Forest<T>, rank: map<T, nat>, o: T)
    requires IsForest(f, rank) && o !in f
    ensures IsForest(Created(f, o), rank[o := 0])
  {
    var g := Created(f, o);
    forall x, d | x in g && d in g[x].children
      ensures d in g && g[d].parent == Some(x)
    {
      assert d in f[x].children;
    }
  }

  lemma {:induction false} ReferencedIsForest<T>(f: Forest<T>, rank: map<T, nat>, o: T)
    requires IsForest(f, rank) && o in f
    ensures IsForest(Referenced(f, o), rank)
  {
  }

  lemma {:induction false} StepIsForest<T>(f: Forest<T>, rank: map<T, nat>, e: Event<T>)
    requires IsForest(f, rank) && Enabled(f, rank, e)
    ensures IsForest(After(f, e), RankAfter(f, rank, e))
  {
    hide Downward, Ranked, Created, Referenced, Released, Adopted;
    match e
    case New(o) => NewIsForest(f, rank, o);
    case AddRef(o) => ReferencedIsForest(f, rank, o);
    case Release(o) => ReleasedExactly(f, rank, o);
    case AddChild(p, c) =>
      AdoptedIsRanked(f, rank, p, c);
      AdoptedUpward(f, p, c);
      AdoptedDownward(f, p, c);
      AdoptedKept(f, p, c);
  }

  lemma {:induction false} AdoptedKept<T>(f: Forest<T>, p: T, c: T)
    requires Kept(f) && p in f && c in f && p != c
    ensures Kept(Adopted(f, p, c))
  {
  }

  ghost predicate Runs<T>(f: Forest<T>, rank: map<T, nat>, es: seq<Event<T>>)
    requires IsForest(f, rank)
    decreases |es|
  {
    es == []
    || (Enabled(f, rank, es[0])
        && (StepIsForest(f, rank, es[0]); Runs(After(f, es[0]), RankAfter(f, rank, es[0]), es[1..])))
  }

  ghost function Run<T>(f: Forest<T>, rank: map<T, nat>, es: seq<Event<T>>): (g: Forest<T>)
    requires IsForest(f, rank) && Runs(f, rank, es)
    decreases |es|
  {
    if es == [] then f
    else StepIsForest(f, rank, es[0]); Run(After(f, es[0]), RankAfter(f, rank, es[0]), es[1..])
  }

  // In every run nothing that is there has a freed parent or child, and whatever is there is
  // counted on, by itself or through something below it.
  lemma {:induction false} RunIsForest<T>(f: Forest<T>, rank: map<T, nat>, es: seq<Event<T>>)
      returns (after: map<T, nat>)
    requires IsForest(f, rank) && Runs(f, rank, es)
    ensures IsForest(Run(f, rank, es), after)
    ensures forall x :: x in Run(f, rank, es) ==> Needed(Run(f, rank, es), after, x)
    decreases |es|
  {
    if es == [] {
      after := rank;
      forall x | x in f
        ensures Needed(f, rank, x)
      {
        KeptIsNeeded(f, rank, x);
      }
    } else {
      StepIsForest(f, rank, es[0]);
      after := RunIsForest(After(f, es[0]), RankAfter(f, rank, es[0]), es[1..]);
    }
  }

  // The users of x: one when it is new, one more with each AddRef, one less with each Release.
  function Counted<T(==)>(e: Event<T>, x: T, before: int): int {
    match e
    case New(o) => if o == x then 1 else before
    case AddRef(o) => if o == x then before + 1 else before
    case Release(o) => if o == x then before - 1 else before
    case AddChild(_, _) => before
  }

  function Users<T(==)>(es: seq<Event<T>>, x: T, before: int): int {
    if es == [] then before else Users(es[1..], x, Counted(es[0], x, before))
  }

  // Its parent: who adopted it since it was new.
  function Adopter<T(==)>(es: seq<Event<T>>, x: T, before: Option<T>): Option<T> {
    if es == [] then before
    else Adopter(es[1..], x, if es[0] == New(x) then None
                             else if es[0].AddChild? && es[0].c == x then Some(es[0].p)
                             else before)
  }

  // It never was without a user.
  predicate AlwaysUsed<T(==)>(es: seq<Event<T>>, x: T, before: int)
    decreases |es|
  {
    before > 0 && (es == [] || AlwaysUsed(es[1..], x, Counted(es[0], x, before)))
  }

  // In every run the count of an object is the number of its users, its parent is who adopted it,
  // and it is there as long as it has users.
  lemma {:induction false} RunCounts<T>(f: Forest<T>, rank: map<T, nat>, es: seq<Event<T>>, x: T, n: int, p: Option<T>)
    requires IsForest(f, rank) && Runs(f, rank, es) && (x in f ==> n == f[x].count && p == f[x].parent)
    ensures var g := Run(f, rank, es);
            && (x in g ==> g[x].count == Users(es, x, n) && g[x].parent == Adopter(es, x, p))
            && (x in f && AlwaysUsed(es, x, n) ==> x in g)
    decreases |es|
  {
    hide Released;
    if es != [] {
      var e := es[0];
      StepIsForest(f, rank, e);
      StepCounts(f, rank, e, x);
      var q := if e == New(x) then None else if e.AddChild? && e.c == x then Some(e.p) else p;
      if AlwaysUsed(es, x, n) {
        assert AlwaysUsed(es[1..], x, Counted(e, x, n));
      }
      RunCounts(After(f, e), RankAfter(f, rank, e), es[1..], x, Counted(e, x, n), q);
    }
  }

  lemma {:induction false} StepCounts<T>(f: Forest<T>, rank: map<T, nat>, e: Event<T>, x: T)
    requires IsForest(f, rank) && Enabled(f, rank, e)
    ensures var g := After(f, e);
            && (x in g && x !in f ==> e == New(x) && g[x].count == 1 && g[x].parent == None)
            && (x in g && x in f ==>
                  && g[x].count == f[x].count + (if e == AddRef(x) then 1 else if e == Release(x) then -1 else 0)
                  && g[x].parent == if e.AddChild? && e.c == x then Some(e.p) else f[x].parent)
            && (x in f && x !in g ==> e.Release? && f[x].count == if e == Release(x) then 1 else 0)
  {
    hide Released;
    if e.Release? {
      ReleaseCounts(f, rank, e.o, x);
    }
  }

  lemma {:induction false} ReleaseCounts<T>(f: Forest<T>, rank: map<T, nat>, o: T, x: T)
    requires IsForest(f, rank) && o in f && f[o].count > 0
    ensures var g := Released(f, o);
            && (x in g ==> x in f && g[x].count == f[x].count - (if x == o then 1 else 0) && g[x].parent == f[x].parent)
            && (x in f && x !in g ==> f[x].count == if x == o then 1 else 0)
  {
    hide Released, IsForest, Upward, Ranked;
    ReleasedExactly(f, rank, o);
    var g := f[o := f[o].(count := f[o].count - 1)];
    if x in f && g[x].count > 0 {
      assert Above(g, rank, x, x);
      assert Needed(g, rank, x);
    }
  }

  // ---------------------------------------------------------------------------
  // Ancestry, from below and from above

  lemma {:induction false} AncestorsAreAbove<T>(f: Forest<T>, rank: map<T, nat>, a: T, b: T)
    requires Upward(f) && Ranked(f, rank) && b in f
    ensures IsParentOf(f, rank, a, b) <==> a != b && Above(f, rank, a, b)
    decreases rank[b]
  {
    if f[b].parent.Some? {
      AncestorsAreAbove(f, rank, a, f[b].parent.value);
      if a == b {
        NothingAboveItself(f, rank, b, f[b].parent.value);
      }
    }
  }

  lemma {:induction false} NothingAboveItself<T>(f: Forest<T>, rank: map<T, nat>, a: T, b: T)
    requires Upward(f) && Ranked(f, rank) && a in f && b in f && rank[b] < rank[a]
    ensures !Above(f, rank, a, b)
    decreases rank[b]
  {
    if f[b].parent.Some? {
      NothingAboveItself(f, rank, a, f[b].parent.value);
    }
  }

  ghost predicate IsParentOf<T>(f: Forest<T>, rank: map<T, nat>, a: T, b: T)
    requires Upward(f) && Ranked(f, rank) && b in f
    decreases rank[b]
  {
    f[b].parent.Some? && (f[b].parent.value == a || IsParentOf(f, rank, a, f[b].parent.value))
  }

  ghost predicate IsChildOf<T>(f: Forest<T>, rank: map<T, nat>, b: T, a: T)
    requires Downward(f) && Ranked(f, rank) && a in f
    decreases Higher(f, rank, a)
  {
    exists c :: c in f[a].children && (b == c || (HigherChild(f, rank, a, c); IsChildOf(f, rank, b, c)))
  }

  lemma {:induction false} HigherChild<T>(f: Forest<T>, rank: map<T, nat>, a: T, c: T)
    requires Downward(f) && Ranked(f, rank) && a in f && c in f[a].children
    ensures c in f && Higher(f, rank, c) < Higher(f, rank, a)
  {
    assert c in f && f[c].parent.value == a && rank[a] < rank[c];
    assert c in Higher(f, rank, a);
    assert c !in Higher(f, rank, c);
    assert Higher(f, rank, c) <= Higher(f, rank, a);
  }

  // A child of somebody below a is below a.
  lemma {:induction false} ChildBelow<T>(f: Forest<T>, rank: map<T, nat>, b: T, q: T, a: T)
    requires Downward(f) && Ranked(f, rank) && a in f && q in f && b in f[q].children && IsChildOf(f, rank, q, a)
    ensures IsChildOf(f, rank, b, a)
    decreases Higher(f, rank, a)
  {
    var c :| c in f[a].children && (q == c || IsChildOf(f, rank, q, c));
    HigherChild(f, rank, a, c);
    if q != c {
      ChildBelow(f, rank, b, q, c);
    }
    assert IsChildOf(f, rank, b, c);
  }

  lemma {:induction false} ParentAbove<T>(f: Forest<T>, rank: map<T, nat>, a: T, c: T, b: T)
    requires Upward(f) && Ranked(f, rank) && b in f && c in f && f[c].parent == Some(a) && IsParentOf(f, rank, c, b)
    ensures IsParentOf(f, rank, a, b)
    decreases rank[b]
  {
    if f[b].parent.value != c {
      ParentAbove(f, rank, a, c, f[b].parent.value);
    }
  }

  // Both tests say the same in every forest.
  lemma {:induction false} AncestryAgrees<T>(f: Forest<T>, rank: map<T, nat>, a: T, b: T)
    requires IsForest(f, rank) && a in f && b in f
    ensures IsParentOf(f, rank, a, b) <==> IsChildOf(f, rank, b, a)
  {
    if IsParentOf(f, rank, a, b) {
      FromAbove(f, rank, a, b);
    }
    if IsChildOf(f, rank, b, a) {
      FromBelow(f, rank, a, b);
    }
  }

  lemma {:induction false} FromAbove<T>(f: Forest<T>, rank: map<T, nat>, a: T, b: T)
    requires IsForest(f, rank) && a in f && b in f && IsParentOf(f, rank, a, b)
    ensures IsChildOf(f, rank, b, a)
    decreases rank[b]
  {
    var q := f[b].parent.value;
    if q != a {
      FromAbove(f, rank, a, q);
      ChildBelow(f, rank, b, q, a);
    }
  }

  lemma {:induction false} FromBelow<T>(f: Forest<T>, rank: map<T, nat>, a: T, b: T)
    requires IsForest(f, rank) && a in f && b in f && IsChildOf(f, rank, b, a)
    ensures IsParentOf(f, rank, a, b)
    decreases Higher(f, rank, a)
  {
    var c :| c in f[a].children && (b == c || IsChildOf(f, rank, b, c));
    HigherChild(f, rank, a, c);
    if b != c {
      FromBelow(f, rank, c, b);
      ParentAbove(f, rank, a, c, b);
    }
  }
}
