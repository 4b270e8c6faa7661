// What a delete makes of the tree as a whole, and where it leaves a cursor on the deleted row.
module TableDeletes {
  import opened RowOrder
  import opened TableTree
  import opened TableHeap

  // ---------------------------------------------------------------------------
  // A rebalancing pass as a function

  // The whole tree after a pass from the top of t upwards.
  ghost function Walked(c: Context, t: Tree): Tree {
    var u := Restructured(t);
    if c.Top? then u else Walked(c.up, Fill(c, u))
  }

  // The whole tree after s is put in the hole and a pass from the hole's parent upwards.
  ghost function Risen(c: Context, s: Tree): Tree {
    if c.Top? then s else Walked(c.up, Fill(c, s))
  }

  lemma {:induction false} RisenStep(c: Context, s: Tree)
    requires !c.Top?
    ensures Risen(c, s) == Risen(c.up, Restructured(Fill(c, s)))
  {
  }

  // One iteration of the pass.
  lemma {:induction false} WalkedStep(c: Context, t: Tree)
    ensures -1 <= Balance(t) <= 1 ==> Walked(c, t) == if c.Top? then t else Walked(c.up, Fill(c, t))
    ensures -1 <= Balance(Restructured(t)) <= 1 ==> Walked(c, Restructured(t)) == Walked(c, t)
  {
  }

  lemma {:induction false} WalkedBalanced(c: Context, t: Tree)
    requires PathBalanced(c, t)
    ensures Walked(c, t) == Plug(c, t)
  {
    if !c.Top? {
      WalkedBalanced(c.up, Fill(c, t));
    }
  }

  lemma {:induction false} AvlPathBalanced(c: Context, t: Tree)
    requires Avl(Plug(c, t))
    ensures PathBalanced(c, t)
  {
    PlugAvl(c, t);
    if !c.Top? {
      AvlPathBalanced(c.up, Fill(c, t));
    }
  }

  lemma {:induction false} WalkedStack(k: Context, d: Context, t: Tree)
    requires !d.Top?
    ensures Walked(Stack(k, d), t) == Walked(d.up, Fill(d, Walked(k, t)))
  {
    if !k.Top? {
      var u := Restructured(t);
      assert Stack(k, d).up == Stack(k.up, d) && Fill(Stack(k, d), u) == Fill(k, u);
      WalkedStack(k.up, d, Fill(k, u));
    }
  }

  // ---------------------------------------------------------------------------
  // A delete as a function

  ghost function MaxEntry(l: Tree): Entry
    requires l.Node?
  {
    if l.right.Leaf? then l.entry else MaxEntry(l.right)
  }

  ghost function WithoutMax(l: Tree): Tree
    requires l.Node?
  {
    if l.right.Leaf? then l.left else Restructured(Node(l.left, l.entry, WithoutMax(l.right)))
  }

  ghost function WithoutTop(t: Tree): Tree
    requires t.Node?
  {
    if t.left.Leaf? then t.right
    else if t.right.Leaf? then t.left
    else Restructured(Node(WithoutMax(t.left), MaxEntry(t.left), t.right))
  }

  lemma {:induction false} RestructuredCount(t: Tree)
    ensures Count(Restructured(t)) == Count(t)
  {
    RestructureKeepsOrder(t);
    CountIsVisible(t);
    CountIsVisible(Restructured(t));
  }

  // Balanced again, at most one level lower.
  ghost predicate Shrunk(t: Tree, s: Tree) { Avl(s) && Height(t) - 1 <= Height(s) <= Height(t) }

  // One side of a balanced tree gets lower, and the top is restructured.
  lemma {:induction false} RestructureShrinks(c: Context, t: Tree, s: Tree)
    requires !c.Top? && Avl(Fill(c, t)) && Shrunk(t, s)
    ensures Shrunk(Fill(c, t), Restructured(Fill(c, s)))
  {
    var f := Fill(c, s);
    if Balance(f) == 2 {
      LeftHeavyRepairs(f);
    } else if Balance(f) == -2 {
      RightHeavyRepairs(f);
    }
  }

  lemma {:induction false} WithoutMaxShrinks(l: Tree)
    requires l.Node? && Avl(l)
    ensures Shrunk(l, WithoutMax(l)) && Count(WithoutMax(l)) + Weight(MaxEntry(l)) == Count(l)
  {
    if l.right.Node? {
      WithoutMaxShrinks(l.right);
      RestructureShrinks(OnRight(Top, l.left, l.entry), l.right, WithoutMax(l.right));
      RestructuredCount(Node(l.left, l.entry, WithoutMax(l.right)));
    }
  }

  lemma {:induction false} WithoutTopShrinks(t: Tree)
    requires t.Node? && Avl(t)
    ensures Shrunk(t, WithoutTop(t)) && Count(WithoutTop(t)) + Weight(t.entry) == Count(t)
  {
    if t.left.Node? && t.right.Node? {
      var e := MaxEntry(t.left);
      WithoutMaxShrinks(t.left);
      assert Avl(Node(t.left, e, t.right)) && Height(Node(t.left, e, t.right)) == Height(t);
      RestructureShrinks(OnLeft(Top, e, t.right), t.left, WithoutMax(t.left));
      RestructuredCount(Node(WithoutMax(t.left), e, t.right));
    }
  }

  // Taking the end of a right spine out and walking up the spine.
  lemma {:induction false} SpineWithoutMax(spine: Context, u: Tree)
    requires RightSpine(spine) && u.Node?
    ensures var l := Plug(spine, u);
            l.Node? && MaxEntry(l) == MaxEntry(u) && WithoutMax(l) == Risen(spine, WithoutMax(u))
  {
    if !spine.Top? {
      SpineWithoutMax(spine.up, Fill(spine, u));
      RisenStep(spine, WithoutMax(u));
    }
  }

  // The pass from the predecessor's new place and the one from its old parent together.
  lemma {:induction false} TwoPasses(c: Context, spine: Context, p: Tree, e: Entry, r: Tree)
    requires RightSpine(spine)
    ensures !spine.Top? ==>
              Walked(Stack(spine.up, OnLeft(c, e, r)), Fill(spine, p)) == Walked(c, Node(Risen(spine, p), e, r))
    ensures Avl(Plug(spine, p)) ==> Risen(spine, p) == Plug(spine, p)
  {
    if !spine.Top? {
      WalkedStack(spine.up, OnLeft(c, e, r), Fill(spine, p));
      if Avl(Plug(spine, p)) {
        AvlPathBalanced(spine.up, Fill(spine, p));
        WalkedBalanced(spine.up, Fill(spine, p));
      }
    }
  }

  lemma {:induction false} WithoutTopIsTwoPasses(c: Context, t: Tree, spine: Context, u: Tree)
    requires t.Node? && t.right.Node? && t.left == Plug(spine, u) && RightSpine(spine) && u.Node? && u.right.Leaf?
    ensures Walked(c, Node(Risen(spine, u.left), u.entry, t.right)) == Risen(c, WithoutTop(t))
  {
    SpineWithoutMax(spine, u);
    assert WithoutMax(u) == u.left;
    assert Walked(c, Node(Risen(spine, u.left), u.entry, t.right))
        == Risen(c, Restructured(Node(WithoutMax(t.left), MaxEntry(t.left), t.right)));
  }

  // ---------------------------------------------------------------------------
  // What the passes do not touch

  // The part that got lower is never taken apart: it stays below the same row, on the same side.
  lemma {:induction false} RisenKeeps(c: Context, t: Tree, s: Tree) returns (k: Context)
    requires Avl(Plug(c, t)) && Shrunk(t, s)
    ensures Risen(c, s) == Plug(k, s) && Visible(Before(k)) == Visible(Before(c))
    ensures c.Top? <==> k.Top?
    ensures !c.Top? ==> k.entry == c.entry && (k.OnLeft? <==> c.OnLeft?)
  {
    k := c;
    if !c.Top? {
      PlugAvl(c, t);
      PlugAvl(c.up, Fill(c, t));
      RestructureShrinks(c, t, s);
      RisenStep(c, s);
      var up := RisenKeeps(c.up, Fill(c, t), Restructured(Fill(c, s)));
      k := LightSide(c, up, t, s);
    }
  }

  lemma {:induction false} LightSide(c: Context, up: Context, t: Tree, s: Tree) returns (k: Context)
    requires !c.Top? && Avl(Fill(c, t)) && Shrunk(t, s) && Visible(Before(up)) == Visible(Before(c.up))
    ensures !k.Top? && k.entry == c.entry && (k.OnLeft? <==> c.OnLeft?)
    ensures Plug(up, Restructured(Fill(c, s))) == Plug(k, s) && Visible(Before(k)) == Visible(Before(c))
  {
    hide Plug, Before, InOrder, Count, RotatedL, RotatedR;
    if c.OnLeft? {
      k := LightLeft(up, s, c.entry, c.sibling);
      LeftBefore(c);
    } else {
      k := LightRight(up, c.sibling, c.entry, s);
      BeforeRight(c.up, c.sibling, c.entry);
    }
  }

  lemma {:induction false} LeftBefore(c: Context)
    requires c.OnLeft?
    ensures Before(c) == Before(c.up)
  {
  }

  lemma {:induction false} LightLeft(up: Context, s: Tree, e: Entry, o: Tree) returns (k: Context)
    requires Height(s) - 1 <= Height(o) <= Height(s) + 2
    ensures k.OnLeft? && k.entry == e && Before(k) == Before(up)
    ensures Plug(up, Restructured(Node(s, e, o))) == Plug(k, s)
  {
    var m := if o.Node? then o.left else o;
    k := if Height(o) <= Height(s) + 1 then OnLeft(up, e, o)
         else if Balance(o) <= 0 then OnLeft(OnLeft(up, o.entry, o.right), e, m)
         else OnLeft(OnLeft(up, m.entry, Node(m.right, o.entry, o.right)), e, m.left);
  }

  lemma {:induction false} LightRight(up: Context, o: Tree, e: Entry, s: Tree) returns (k: Context)
    requires Height(s) - 1 <= Height(o) <= Height(s) + 2
    ensures k.OnRight? && k.entry == e && Visible(Before(k)) == Visible(Before(up)) + Count(o) + Weight(e)
    ensures Plug(up, Restructured(Node(o, e, s))) == Plug(k, s)
  {
    hide Before, InOrder;
    if Height(o) <= Height(s) + 1 {
      k := OnRight(up, o, e);
      BeforeRight(up, o, e);
    } else if Balance(o) >= 0 {
      k := OnRight(OnRight(up, o.left, o.entry), o.right, e);
      BeforeRight(up, o.left, o.entry);
      BeforeRight(k.up, o.right, e);
    } else {
      var m := o.right;
      k := OnRight(OnRight(up, Node(o.left, o.entry, m.left), m.entry), m.right, e);
      BeforeRight(up, Node(o.left, o.entry, m.left), m.entry);
      BeforeRight(k.up, m.right, e);
    }
  }

  // ---------------------------------------------------------------------------
  // Where the deleted row's last pointer leads

  // The visible rows that a rotation lifts above the top of l when its last row is taken out.
  ghost function Lifted(l: Tree): nat
    requires l.Node?
  {
    if l.right.Leaf? || Height(l.left) <= Height(WithoutMax(l.right)) + 1 then 0
    else
      var m := l.left;
      Count(m.left) + Weight(m.entry)
      + if Balance(m) >= 0 then 0 else Count(m.right.left) + Weight(m.right.entry)
  }

  // The top of l afterwards, and what is left below it.
  lemma {:induction false} TopAfter(l: Tree) returns (j: Context, x: Tree)
    requires l.Node? && l.right.Node? && Avl(l)
    ensures WithoutMax(l) == Plug(j, x) && x.Node? && x.entry == l.entry
    ensures Count(x) == Count(l) - Weight(MaxEntry(l)) - Lifted(l)
  {
    var w, m := WithoutMax(l.right), l.left;
    var f := Node(m, l.entry, w);
    WithoutMaxShrinks(l.right);
    assert Count(f) == Count(l) - Weight(MaxEntry(l));
    if Height(m) <= Height(w) + 1 {
      j, x := Top, f;
    } else if Balance(m) >= 0 {
      j, x := OnRight(Top, m.left, m.entry), Node(m.right, l.entry, w);
      assert Plug(j, x) == Restructured(f) && Count(f) == Count(m.left) + Weight(m.entry) + Count(x);
    } else {
      j, x := OnRight(Top, Node(m.left, m.entry, m.right.left), m.right.entry), Node(m.right.right, l.entry, w);
      assert Plug(j, x) == Restructured(f);
      assert Count(m) == Count(m.left) + Weight(m.entry) + Count(m.right);
      assert Count(m.right) == Count(m.right.left) + Weight(m.right.entry) + Count(m.right.right);
    }
  }

  // The left child the deleted row still points to: its own, or, if its left child was the
  // predecessor, that one's.
  ghost function LastLeft(t: Tree): Tree
    requires t.Node?
  {
    if t.left.Node? && t.right.Node? && t.left.right.Leaf? then t.left.left else t.left
  }

  // What is below that row afterwards.
  ghost function LastLeftCount(t: Tree): int
    requires t.Node?
  {
    if t.left.Node? && t.right.Node? then
      Count(t.left) - Weight(MaxEntry(t.left)) - Lifted(t.left)
    else Count(t.left)
  }

  lemma {:induction false} LastLeftStays(t: Tree) returns (j: Context, x: Tree)
    requires t.Node? && Avl(t)
    ensures LastLeft(t).Leaf? ==> LastLeftCount(t) == 0
    ensures LastLeft(t).Node? ==>
              WithoutTop(t) == Plug(j, x) && x.Node? && x.entry == LastLeft(t).entry && Count(x) == LastLeftCount(t)
  {
    var l, r := t.left, t.right;
    j, x := Top, l;
    if l.Node? && r.Node? {
      var e := MaxEntry(l);
      WithoutMaxShrinks(l);
      assert Avl(Node(l, e, r));
      var k := RisenKeeps(OnLeft(Top, e, r), l, WithoutMax(l));
      if l.right.Leaf? {
        j, x := k, l.left;
      } else {
        j, x := TopAfter(l);
        PlugStack(j, k, x);
        j := Stack(j, k);
      }
    }
  }

  // The branch count the deleted row still holds.
  ghost function LastCount(t: Tree): int
    requires t.Node?
  {
    if t.left.Node? && t.right.Node? && t.left.right.Leaf? then Count(t) - Weight(t.left.entry) else Count(t)
  }

  // The same, where the predecessor u was found at the end of the spine.
  lemma {:induction false} LastOfTwo(t: Tree, spine: Context, u: Tree)
    requires t.Node? && t.left.Node? && t.right.Node? && t.left == Plug(spine, u)
    requires RightSpine(spine) && u.Node? && u.right.Leaf?
    ensures spine.Top? <==> t.left.right.Leaf?
    ensures Ptr(Plug(spine, u.left)) == Ptr(LastLeft(t))
    ensures LastCount(t) == if spine.Top? then Weight(t.entry) + Count(u.left) + Count(t.right) else Count(t)
  {
    if !spine.Top? {
      SpineTop(spine, u);
      SpineTop(spine, u.left);
    } else {
      assert Count(u) == Count(u.left) + Weight(u.entry);
    }
  }

  // What hangs at the end of a spine does not change what stands on top of it.
  lemma {:induction false} SpineTop(spine: Context, u: Tree)
    requires RightSpine(spine) && !spine.Top?
    ensures var l := Plug(spine, u);
            l.Node? && l.entry == SpineFoot(spine).entry && (l.right.Leaf? <==> spine.up.Top? && u.Leaf?)
  {
    if !spine.up.Top? {
      SpineTop(spine.up, Fill(spine, u));
    }
  }

  ghost function SpineFoot(spine: Context): Context
    requires !spine.Top?
    ensures !SpineFoot(spine).Top?
  {
    if spine.up.Top? then spine else SpineFoot(spine.up)
  }

  // By how much the row number found for the deleted row falls short of its rank.
  ghost function Setback(t: Tree, isRight: bool): nat
    requires t.Node?
  {
    var l, own := t.left, if isRight then Weight(t.entry) else 0;
    if l.Leaf? || t.right.Leaf? then own
    else if l.right.Leaf? then (if isRight then own else Weight(l.entry))
    else Weight(MaxEntry(l)) + Lifted(l) + own
  }

  lemma {:induction false} SetbackIs(t: Tree, isRight: bool)
    requires t.Node?
    ensures LastLeftCount(t) + (if isRight then Count(t) - Weight(t.entry) - LastCount(t) else 0)
            == Count(t.left) - Setback(t, isRight)
  {
  }

  // The same for a row of the tree, found from the top; isRight says on which side t itself hangs.
  ghost function SetbackOf(t: Tree, isRight: bool, row: TableRow): nat {
    match t
    case Leaf => 0
    case Node(l, e, r) =>
      if e.row == row then Setback(t, isRight)
      else if row in Rows(l) then SetbackOf(l, false, row)
      else SetbackOf(r, true, row)
  }

  lemma {:induction false} SetbackHere(c: Context, t: Tree, isRight: bool, row: TableRow)
    requires Distinct(Plug(c, t)) && row in Rows(t)
    ensures SetbackOf(Plug(c, t), isRight, row) == SetbackOf(t, if c.Top? then isRight else c.OnRight?, row)
  {
    if !c.Top? {
      PlugDistinct(c, t);
      SetbackHere(c.up, Fill(c, t), isRight, row);
    }
  }

  // ---------------------------------------------------------------------------
  // The promise: on to the next row, or back to the previous one if this was the last

  // The visible rows ahead of the cursor after going one back and one on from row number x, with n
  // visible rows.
  function Landing(x: int, n: nat): nat { if x <= 1 then Min(1, n) else Min(x, n) }

  // Where the cursor should be after the row with p visible rows before it is gone.
  function Promised(p: nat, n: nat): nat
    requires p <= n
  {
    if p < n || n == 0 then p else n - 1
  }

  // When that is so, by what the tree before the delete makes of the row.
  predicate MovesOn(p: nat, n: nat, setback: nat) {
    || n == 0
    || (p < n && (p == 1 || (p >= 2 && setback == 0)))
    || (p == n >= 2 && if n == 2 then setback >= 1 else setback == 1)
  }

  lemma {:induction false} LandsAsPromised(p: nat, n: nat, setback: nat)
    requires p <= n
    ensures Landing(p - setback, n) == Promised(p, n) <==> MovesOn(p, n, setback)
  {
  }

  // The rows ahead of a row stay when it goes.
  lemma {:induction false} RankStays(s: seq<Entry>, row: TableRow)
    ensures var p := Position(s, row); 0 <= p < |s| ==> Rank(s, row) <= Visible(Removed(s, p))
  {
    var p := Position(s, row);
    if 0 <= p < |s| {
      VisibleConcat(s[..p], s[p + 1..]);
    }
  }

  ghost predicate NothingHidden(s: seq<Entry>) { forall i :: 0 <= i < |s| ==> !s[i].hidden }

  lemma {:induction false} AllVisible(s: seq<Entry>)
    requires NothingHidden(s)
    ensures Visible(s) == |s|
  {
    if s != [] {
      AllVisible(s[1..]);
    }
  }

  lemma {:induction false} ShownRank(s: seq<Entry>, p: nat)
    requires NothingHidden(s) && p <= |s|
    ensures Visible(s[..p]) == p
  {
    AllVisible(s[..p]);
  }

  lemma {:induction false} MaxIsLast(l: Tree)
    requires l.Node?
    ensures var s := InOrder(l); |s| > 0 && s[|s| - 1] == MaxEntry(l)
  {
    if l.right.Node? {
      MaxIsLast(l.right);
    }
  }

  // With no row hidden, what matters is the rank of the row and how it hangs in the tree.
  lemma {:induction false} KeepsPromiseExactly(c: Context, t: Tree)
    requires t.Node? && Avl(Plug(c, t)) && NothingHidden(InOrder(Plug(c, t)))
    ensures var p, n := |Before(c)| + |InOrder(t.left)|, |InOrder(Plug(c, t))| - 1;
            p <= n &&
            (MovesOn(p, n, Setback(t, c.OnRight?)) <==>
               || n == 0
               || (p < n && (p == 1 || (p >= 2 && !c.OnRight? && (t.left.Leaf? || t.right.Leaf?))))
               || p == n >= 2)
  {
    var a, b := Before(c) + InOrder(t.left), InOrder(t.right) + After(c);
    var s, p, n := InOrder(Plug(c, t)), |a|, |InOrder(Plug(c, t))| - 1;
    NodeOrder(c, t.left, t.entry, t.right);
    assert s == a + [t.entry] + b && n == p + |b|;
    assert s[p] == t.entry;
    if t.left.Node? {
      MaxIsLast(t.left);
      assert s[p - 1] == MaxEntry(t.left);
    }
    if p == n {
      LastHangsRight(c, t);
    }
  }

  // The last row has no right child, and in a balanced tree of three rows it is not the top.
  lemma {:induction false} LastHangsRight(c: Context, t: Tree)
    requires t.Node? && Avl(Plug(c, t)) && |InOrder(t.right)| + |After(c)| == 0
    ensures t.right.Leaf? && (c.OnRight? || |Before(c)| + |InOrder(t.left)| <= 1)
  {
    PlugAvl(c, t);
    if c.Top? {
      assert Height(t.left) <= 1;
      assert t.left.Node? ==> t.left.left.Leaf? && t.left.right.Leaf?;
    }
  }

  // Five rows; the cursor is on the third.  It is a right child, and the cursor goes back to the
  // second row, although the fourth follows.
  lemma {:induction false} CursorGoesBack(a: Entry, b: Entry, c: Entry, d: Entry, e: Entry)
    requires NothingHidden([a, b, c, d, e]) && NoRepeats([a, b, c, d, e])
    ensures var t := Node(Node(Node(Leaf, a, Leaf), b, Node(Leaf, c, Leaf)), d, Node(Leaf, e, Leaf));
            && InOrder(t) == [a, b, c, d, e] && Avl(t)
            && Landing(2 - SetbackOf(t, false, c.row), 4) == 1 && Promised(2, 4) == 2
  {
    var s := [a, b, c, d, e];
    assert s[0] == a && s[1] == b && s[2] == c && s[3] == d && s[4] == e;
    OneRow(a);
    OneRow(c);
    OneRow(e);
    var l := Node(Node(Leaf, a, Leaf), b, Node(Leaf, c, Leaf));
    assert InOrder(l) == [a, b, c] && Height(l) == 2 && Avl(l);
    assert c.row in Rows(l) && c.row != d.row && c.row != b.row && c.row !in Rows(l.left);
    assert SetbackOf(l, false, c.row) == Setback(Node(Leaf, c, Leaf), true) == 1;
  }

  lemma {:induction false} OneRow(e: Entry)
    ensures var t := Node(Leaf, e, Leaf); InOrder(t) == [e] && Height(t) == 1 && Avl(t) && Rows(t) == {e.row}
  {
  }
}
