// The row nodes of the key table, and the mathematics of the tree they form.
module TableTree {
  import opened RowOrder

  // sObjectTableKey: object id and order id.
  datatype Key = Key(objId: nat, orderId: nat)

  const NO_KEY := Key(0, 0)

  // ECTableRow.  The key and the sort columns never change once the row exists.
  class TableRow {
    const key: Key
    const cols: Cols
    const isRoot: bool
    var hidden: bool
    var parent: TableRow?
    var left: TableRow?
    var right: TableRow?
    var isLeft: bool
    var height: nat
    var branchCount: nat

    constructor (key: Key, cols: Cols, hidden: bool, isRoot: bool := false)
      ensures this.key == key && this.cols == cols && this.hidden == hidden && this.isRoot == isRoot
      ensures parent == null && left == null && right == null && !isLeft && height == 0 && branchCount == 0
    {
      this.key, this.cols, this.hidden, this.isRoot := key, cols, hidden, isRoot;
      parent, left, right, isLeft, height, branchCount := null, null, null, false, 0, 0;
    }
  }

  // A row of the table and its current hidden flag.
  datatype Entry = Entry(row: TableRow, hidden: bool)

  // The shape of the tree, as a value.
  datatype Tree = Leaf | Node(left: Tree, entry: Entry, right: Tree)

  // A tree with one subtree cut out, read from the hole upwards.
  datatype Context =
    | Top
    | OnLeft(up: Context, entry: Entry, sibling: Tree)
    | OnRight(up: Context, sibling: Tree, entry: Entry)

  function Max(a: nat, b: nat): nat { if a < b then b else a }

  ghost function InOrder(t: Tree): seq<Entry> {
    match t
    case Leaf => []
    case Node(l, e, r) => InOrder(l) + [e] + InOrder(r)
  }

  ghost function Rows(t: Tree): set<TableRow> {
    match t
    case Leaf => {}
    case Node(l, e, r) => Rows(l) + {e.row} + Rows(r)
  }

  ghost function Height(t: Tree): nat {
    match t
    case Leaf => 0
    case Node(l, e, r) => 1 + Max(Height(l), Height(r))
  }

  function Weight(e: Entry): nat { if e.hidden then 0 else 1 }

  // The number of visible rows of a subtree.
  ghost function Count(t: Tree): nat {
    match t
    case Leaf => 0
    case Node(l, e, r) => Count(l) + Weight(e) + Count(r)
  }

  ghost function Balance(t: Tree): int {
    match t
    case Leaf => 0
    case Node(l, e, r) => Height(l) - Height(r)
  }

  ghost predicate Avl(t: Tree) {
    match t
    case Leaf => true
    case Node(l, e, r) => -1 <= Balance(t) <= 1 && Avl(l) && Avl(r)
  }

  // No row occurs twice, and the sentinel does not occur.
  ghost predicate Distinct(t: Tree) {
    match t
    case Leaf => true
    case Node(l, e, r) =>
      && !e.row.isRoot
      && e.row !in Rows(l) && e.row !in Rows(r) && Rows(l) !! Rows(r)
      && Distinct(l) && Distinct(r)
  }

  // ---------------------------------------------------------------------------
  // Contexts

  function Fill(c: Context, t: Tree): Tree
    requires !c.Top?
  {
    if c.OnLeft? then Node(t, c.entry, c.sibling) else Node(c.sibling, c.entry, t)
  }

  ghost function Plug(c: Context, t: Tree): Tree {
    if c.Top? then t else Plug(c.up, Fill(c, t))
  }

  ghost function Before(c: Context): seq<Entry> {
    match c
    case Top => []
    case OnLeft(up, e, s) => Before(up)
    case OnRight(up, s, e) => Before(up) + (InOrder(s) + [e])
  }

  ghost function After(c: Context): seq<Entry> {
    match c
    case Top => []
    case OnLeft(up, e, s) => ([e] + InOrder(s)) + After(up)
    case OnRight(up, s, e) => After(up)
  }

  // The rows on the way from the hole to the top.
  ghost function Spine(c: Context): set<TableRow> {
    if c.Top? then {} else {c.entry.row} + Spine(c.up)
  }

  ghost function ContextRows(c: Context): set<TableRow> {
    if c.Top? then {} else {c.entry.row} + Rows(c.sibling) + ContextRows(c.up)
  }

  ghost function SiblingRows(c: Context): set<TableRow> {
    if c.Top? then {} else Rows(c.sibling) + SiblingRows(c.up)
  }

  ghost predicate ContextDistinct(c: Context) {
    c.Top? ||
    (&& !c.entry.row.isRoot
     && c.entry.row !in Rows(c.sibling) && c.entry.row !in ContextRows(c.up)
     && Rows(c.sibling) !! ContextRows(c.up)
     && Distinct(c.sibling) && ContextDistinct(c.up))
  }

  ghost function Depth(c: Context): nat { if c.Top? then 0 else 1 + Depth(c.up) }

  // Every node above a hole of height h is balanced, and so is everything hanging off the way up.
  ghost predicate ContextAvl(c: Context, h: nat) {
    c.Top? ||
    (&& Avl(c.sibling)
     && -1 <= h - Height(c.sibling) <= 1
     && ContextAvl(c.up, 1 + Max(h, Height(c.sibling))))
  }

  lemma {:induction false} Regroup(a: seq<Entry>, b: seq<Entry>, e: Entry, c: seq<Entry>, d: seq<Entry>)
    ensures a + (b + [e] + c) + d == a + b + (([e] + c) + d)
    ensures a + (b + [e] + c) + d == (a + (b + [e])) + c + d
  {
  }

  lemma {:induction false} PlugInOrder(c: Context, t: Tree)
    ensures InOrder(Plug(c, t)) == Before(c) + InOrder(t) + After(c)
  {
    match c
    case Top =>
    case OnLeft(up, e, s) =>
      PlugInOrder(up, Fill(c, t));
      Regroup(Before(up), InOrder(t), e, InOrder(s), After(up));
    case OnRight(up, s, e) =>
      PlugInOrder(up, Fill(c, t));
      Regroup(Before(up), InOrder(s), e, InOrder(t), After(up));
  }

  lemma {:induction false} RegroupNode(a: seq<Entry>, b: seq<Entry>, e: Entry, c: seq<Entry>, d: seq<Entry>)
    ensures a + (b + [e] + c) + d == (a + b) + [e] + (c + d)
  {
  }

  lemma {:induction false} RegroupEnd(a: seq<Entry>, b: seq<Entry>, e: Entry)
    ensures (a + b) + [e] == a + (b + [e])
  {
  }

  lemma {:induction false} NodeOrder(c: Context, l: Tree, e: Entry, r: Tree)
    ensures InOrder(Plug(c, Node(l, e, r))) == (Before(c) + InOrder(l)) + [e] + (InOrder(r) + After(c))
  {
    PlugInOrder(c, Node(l, e, r));
    RegroupNode(Before(c), InOrder(l), e, InOrder(r), After(c));
  }

  lemma {:induction false} PlugRows(c: Context, t: Tree)
    ensures Rows(Plug(c, t)) == ContextRows(c) + Rows(t)
  {
    if !c.Top? {
      PlugRows(c.up, Fill(c, t));
    }
  }

  lemma {:induction false} PlugDistinct(c: Context, t: Tree)
    ensures Distinct(Plug(c, t)) <==> ContextDistinct(c) && Distinct(t) && ContextRows(c) !! Rows(t)
  {
    if !c.Top? {
      PlugDistinct(c.up, Fill(c, t));
    }
  }

  lemma {:induction false} PlugAvl(c: Context, t: Tree)
    ensures Avl(Plug(c, t)) <==> Avl(t) && ContextAvl(c, Height(t))
  {
    if !c.Top? {
      var f := Fill(c, t);
      PlugAvl(c.up, f);
      assert Height(f) == 1 + Max(Height(t), Height(c.sibling));
      assert Avl(f) <==> Avl(t) && Avl(c.sibling) && -1 <= Height(t) - Height(c.sibling) <= 1;
    }
  }

  lemma {:induction false} SpineInContext(c: Context)
    ensures Spine(c) <= ContextRows(c)
  {
    if !c.Top? {
      SpineInContext(c.up);
    }
  }

  lemma {:induction false} SiblingsInContext(c: Context)
    ensures SiblingRows(c) <= ContextRows(c)
  {
    if !c.Top? {
      SiblingsInContext(c.up);
    }
  }

  lemma {:induction false} SpineApart(c: Context)
    requires ContextDistinct(c)
    ensures Spine(c) !! SiblingRows(c)
  {
    if !c.Top? {
      SpineApart(c.up);
      SpineInContext(c.up);
      SiblingsInContext(c.up);
    }
  }

  // Every row of a tree is the top of some subtree.
  lemma {:induction false} Focus(t: Tree, r: TableRow) returns (c: Context, s: Tree)
    requires r in Rows(t)
    ensures Plug(c, s) == t && s.Node? && s.entry.row == r
  {
    c, s := FocusBelow(Top, t, r);
  }

  lemma {:induction false} FocusBelow(c0: Context, t: Tree, r: TableRow) returns (c: Context, s: Tree)
    requires r in Rows(t)
    ensures Plug(c, s) == Plug(c0, t) && s.Node? && s.entry.row == r
    decreases t
  {
    if r == t.entry.row {
      c, s := c0, t;
    } else if r in Rows(t.left) {
      c, s := FocusBelow(OnLeft(c0, t.entry, t.right), t.left, r);
    } else {
      c, s := FocusBelow(OnRight(c0, t.left, t.entry), t.right, r);
    }
  }

  // ---------------------------------------------------------------------------
  // Positions

  ghost function Visible(s: seq<Entry>): nat {
    if s == [] then 0 else Weight(s[0]) + Visible(s[1..])
  }

  lemma {:induction false} VisibleConcat(a: seq<Entry>, b: seq<Entry>)
    ensures Visible(a + b) == Visible(a) + Visible(b)
  {
    if a == [] {
      assert a + b == b;
    } else {
      VisibleConcat(a[1..], b);
      assert (a + b)[1..] == a[1..] + b;
    }
  }

  lemma {:induction false} CountIsVisible(t: Tree)
    ensures Count(t) == Visible(InOrder(t))
  {
    match t
    case Leaf =>
    case Node(l, e, r) =>
      CountIsVisible(l);
      CountIsVisible(r);
      VisibleConcat(InOrder(l) + [e], InOrder(r));
      VisibleConcat(InOrder(l), [e]);
      assert Visible([e]) == Weight(e) + Visible([]);
  }

  ghost predicate HasRow(s: seq<Entry>, r: TableRow) {
    exists i :: 0 <= i < |s| && s[i].row == r
  }

  ghost predicate NoRepeats(s: seq<Entry>) {
    forall i, j :: 0 <= i < j < |s| ==> s[i].row != s[j].row
  }

  lemma {:induction false} RowsInOrder(t: Tree)
    ensures forall r :: r in Rows(t) <==> HasRow(InOrder(t), r)
  {
    match t
    case Leaf =>
    case Node(l, e, right) =>
      RowsInOrder(l);
      RowsInOrder(right);
      var a, b := InOrder(l), InOrder(right);
      var s := a + [e] + b;
      forall r | r in Rows(t)
        ensures HasRow(s, r)
      {
        if r in Rows(l) {
          assert HasRow(a, r);
          var i :| 0 <= i < |a| && a[i].row == r;
          assert s[i].row == r;
        } else if r == e.row {
          assert s[|a|].row == r;
        } else {
          assert HasRow(b, r);
          var i :| 0 <= i < |b| && b[i].row == r;
          assert s[|a| + 1 + i].row == r;
        }
      }
      forall r | HasRow(s, r)
        ensures r in Rows(t)
      {
        var i :| 0 <= i < |s| && s[i].row == r;
        if i < |a| {
          assert a[i].row == r;
        } else if i > |a| {
          assert b[i - |a| - 1].row == r;
        }
      }
  }

  lemma {:induction false} DistinctNoRepeats(t: Tree)
    requires Distinct(t)
    ensures NoRepeats(InOrder(t))
  {
    match t
    case Leaf =>
    case Node(l, e, r) =>
      DistinctNoRepeats(l);
      DistinctNoRepeats(r);
      RowsInOrder(l);
      RowsInOrder(r);
      var a, b := InOrder(l), InOrder(r);
      var s := a + [e] + b;
      forall i, j | 0 <= i < j < |s|
        ensures s[i].row != s[j].row
      {
        if i < |a| {
          assert HasRow(a, a[i].row) && a[i].row in Rows(l);
        }
        if j > |a| {
          assert HasRow(b, b[j - |a| - 1].row) && b[j - |a| - 1].row in Rows(r);
        }
      }
  }

  // The position of a row.
  ghost function IndexOf(s: seq<Entry>, r: TableRow): (i: nat)
    requires HasRow(s, r)
    ensures i < |s| && s[i].row == r
  {
    var i :| 0 <= i < |s| && s[i].row == r; i
  }

  // Where a cursor stands: a row's index, -1 before the first row (the sentinel), the number
  // of rows after the last one (null).
  ghost function Position(s: seq<Entry>, r: TableRow?): (p: int)
    ensures -1 <= p <= |s|
  {
    if r == null then |s| else if HasRow(s, r) then IndexOf(s, r) else -1
  }

  // The key of the row before position p, if there is one.
  ghost function KeyBefore(s: seq<Entry>, p: int): Key {
    if 1 <= p <= |s| then s[p - 1].row.key else NO_KEY
  }

  // The key reported as that of the row before position p, in a table that gets a row there.
  lemma {:induction false} KeyBeforeIs(s: seq<Entry>, p: nat, e: Entry)
    requires p <= |s|
    ensures KeyBefore(s, p) == if p == 0 then NO_KEY else s[p - 1].row.key
    ensures |Inserted(s, p, e)| == |s| + 1 && Inserted(s, p, e)[p] == e
    ensures forall i :: 0 <= i < |s| ==> Inserted(s, p, e)[if i < p then i else i + 1] == s[i]
  {
  }

  // The key of the last row before p that is not hidden, or the empty key if there is none.
  ghost predicate ShownBefore(s: seq<Entry>, p: int, q: int, key: Key) {
    && 0 <= q <= p <= |s| && key == KeyBefore(s, q)
    && (forall i :: q <= i < p ==> s[i].hidden)
    && (q > 0 ==> !s[q - 1].hidden)
  }

  // How many visible rows come before a cursor.
  ghost function Rank(s: seq<Entry>, r: TableRow?): nat {
    var p := Position(s, r);
    if p == -1 then 0 else Visible(s[..p])
  }

  lemma {:induction false} PositionAt(s: seq<Entry>, i: nat)
    requires NoRepeats(s) && i < |s|
    ensures Position(s, s[i].row) == i && HasRow(s, s[i].row)
  {
    assert HasRow(s, s[i].row);
    assert s[IndexOf(s, s[i].row)].row == s[i].row;
  }

  // The position and rank of the row on top of a subtree.
  lemma {:induction false} PlugPosition(c: Context, t: Tree)
    requires Distinct(Plug(c, t)) && t.Node?
    ensures var s := InOrder(Plug(c, t));
            && HasRow(s, t.entry.row)
            && Position(s, t.entry.row) == |Before(c)| + |InOrder(t.left)| < |s|
            && s[|Before(c)| + |InOrder(t.left)|] == t.entry
            && Rank(s, t.entry.row) == Visible(Before(c)) + Count(t.left)
  {
    var s := InOrder(Plug(c, t));
    NodeOrder(c, t.left, t.entry, t.right);
    var a := Before(c) + InOrder(t.left);
    assert s[|a|] == t.entry && s[..|a|] == a;
    DistinctNoRepeats(Plug(c, t));
    PositionAt(s, |a|);
    VisibleConcat(Before(c), InOrder(t.left));
    CountIsVisible(t.left);
  }

  lemma {:induction false} PlugCount(c: Context, t: Tree)
    ensures Count(Plug(c, t)) == Visible(Before(c)) + Count(t) + Visible(After(c))
    ensures |InOrder(Plug(c, t))| == |Before(c)| + |InOrder(t)| + |After(c)|
  {
    PlugInOrder(c, t);
    CountIsVisible(Plug(c, t));
    CountIsVisible(t);
    VisibleConcat(Before(c) + InOrder(t), After(c));
    VisibleConcat(Before(c), InOrder(t));
  }

  lemma {:induction false} VisibleSnoc(a: seq<Entry>, e: Entry)
    ensures Visible(a + [e]) == Visible(a) + Weight(e)
  {
    VisibleConcat(a, [e]);
    assert Visible([e]) == Weight(e) + Visible([]);
  }

  // Stepping into the right subtree.
  lemma {:induction false} BeforeRight(c: Context, l: Tree, e: Entry)
    ensures var k := OnRight(c, l, e);
            && Visible(Before(k)) == Visible(Before(c)) + Count(l) + Weight(e)
            && |Before(k)| == |Before(c)| + |InOrder(l)| + 1
  {
    VisibleConcat(Before(c), InOrder(l) + [e]);
    VisibleSnoc(InOrder(l), e);
    CountIsVisible(l);
  }

  ghost function Inserted(s: seq<Entry>, p: nat, e: Entry): seq<Entry>
    requires p <= |s|
  {
    s[..p] + [e] + s[p..]
  }

  ghost function Removed(s: seq<Entry>, p: nat): seq<Entry>
    requires p < |s|
  {
    s[..p] + s[p + 1..]
  }

  // The keys of the visible rows, in order.
  ghost function VisibleKeys(s: seq<Entry>): (ks: seq<Key>)
    ensures |ks| == Visible(s)
  {
    if s == [] then [] else (if s[0].hidden then [] else [s[0].row.key]) + VisibleKeys(s[1..])
  }

  ghost function Keys(s: seq<Entry>): (ks: seq<Key>)
    ensures |ks| == |s| && forall i :: 0 <= i < |s| ==> ks[i] == s[i].row.key
  {
    seq(|s|, i requires 0 <= i < |s| => s[i].row.key)
  }

  lemma {:induction false} VisibleKeysConcat(a: seq<Entry>, b: seq<Entry>)
    ensures VisibleKeys(a + b) == VisibleKeys(a) + VisibleKeys(b)
  {
    if a == [] {
      assert a + b == b;
    } else {
      var first := if a[0].hidden then [] else [a[0].row.key];
      VisibleKeysConcat(a[1..], b);
      assert (a + b)[1..] == a[1..] + b && (a + b)[0] == a[0];
      assert first + VisibleKeys(a[1..]) + VisibleKeys(b) == first + (VisibleKeys(a[1..]) + VisibleKeys(b));
    }
  }

  // The keys reported between two positions: of all rows, or of the visible ones.
  ghost function Reported(s: seq<Entry>, start: nat, stop: nat, showHidden: bool): seq<Key>
    requires start <= stop <= |s|
  {
    if showHidden then Keys(s[start..stop]) else VisibleKeys(s[start..stop])
  }

  lemma {:induction false} ReportedStep(s: seq<Entry>, start: nat, p: nat, showHidden: bool)
    requires start <= p < |s|
    ensures Reported(s, start, p + 1, showHidden)
            == Reported(s, start, p, showHidden) + if showHidden || !s[p].hidden then [s[p].row.key] else []
  {
    assert s[start..p + 1] == s[start..p] + [s[p]];
    VisibleKeysConcat(s[start..p], [s[p]]);
    assert VisibleKeys([s[p]]) == (if s[p].hidden then [] else [s[p].row.key]) + VisibleKeys([]);
  }

  // In terms of ranks the visible keys between two positions are a slice of all visible keys.
  lemma {:induction false} ReportedSlice(s: seq<Entry>, start: nat, stop: nat)
    requires start <= stop <= |s|
    ensures Visible(s[..start]) + |Reported(s, start, stop, false)| == Visible(s[..stop]) <= Visible(s)
    ensures Reported(s, start, stop, false) == VisibleKeys(s)[Visible(s[..start])..Visible(s[..stop])]
  {
    assert s[..stop] == s[..start] + s[start..stop];
    assert s == s[..stop] + s[stop..];
    VisibleKeysConcat(s[..start], s[start..stop]);
    VisibleKeysConcat(s[..stop], s[stop..]);
  }

  lemma {:induction false} RankIsVisible(s: seq<Entry>, r: TableRow?)
    ensures Rank(s, r) <= Visible(s)
    ensures Position(s, r) >= 0 ==> Rank(s, r) == Visible(s[..Position(s, r)])
    ensures Position(s, r) == -1 ==> Rank(s, r) == 0 == Visible(s[..0])
    ensures r == null ==> Position(s, r) == |s| && Rank(s, r) == Visible(s)
  {
    var p := Position(s, r);
    if p >= 0 {
      assert s == s[..p] + s[p..];
      VisibleConcat(s[..p], s[p..]);
    }
    assert s[..|s|] == s;
  }

  // How many keys are reported if at most `limit` are wanted.
  lemma {:induction false} ReportedCount(s: seq<Entry>, start: nat, stop: nat, showHidden: bool, limit: nat)
    requires start <= stop <= |s|
    requires var n := |Reported(s, start, stop, showHidden)|; n <= limit && (n == limit || stop == |s|)
    ensures var available := if showHidden then |s| - start else Visible(s) - Visible(s[..start]);
            available >= 0 && |Reported(s, start, stop, showHidden)| == Min(limit, available)
  {
    ReportedSlice(s, start, stop);
    assert s[..|s|] == s;
  }

  // No two visible rows have the same key.
  lemma {:induction false} VisibleKeysDistinct(s: seq<Entry>)
    requires forall i, j :: 0 <= i < j < |s| ==> s[i].row.key != s[j].row.key
    ensures forall i, j :: 0 <= i < j < |VisibleKeys(s)| ==> VisibleKeys(s)[i] != VisibleKeys(s)[j]
    ensures forall k :: k in VisibleKeys(s) <==> exists i :: 0 <= i < |s| && !s[i].hidden && s[i].row.key == k
  {
    if s != [] {
      VisibleKeysDistinct(s[1..]);
      var t := VisibleKeys(s[1..]);
      forall k | k in VisibleKeys(s)
        ensures exists i :: 0 <= i < |s| && !s[i].hidden && s[i].row.key == k
      {
        if k in t {
          var i :| 0 <= i < |s[1..]| && !s[1..][i].hidden && s[1..][i].row.key == k;
          assert s[i + 1] == s[1..][i];
        } else {
          assert !s[0].hidden && s[0].row.key == k;
        }
      }
      forall k | exists i :: 0 <= i < |s| && !s[i].hidden && s[i].row.key == k
        ensures k in VisibleKeys(s)
      {
        var i :| 0 <= i < |s| && !s[i].hidden && s[i].row.key == k;
        if i > 0 {
          assert s[1..][i - 1] == s[i];
          assert k in t;
        }
      }
      if !s[0].hidden {
        assert s[0].row.key !in t;
      }
    }
  }

  // ---------------------------------------------------------------------------
  // Rebalancing

  // The left child comes up; a no-op where there is none.
  ghost function RotatedL(t: Tree): Tree {
    if t.Node? && t.left.Node? then
      Node(t.left.left, t.left.entry, Node(t.left.right, t.entry, t.right))
    else t
  }

  ghost function RotatedR(t: Tree): Tree {
    if t.Node? && t.right.Node? then
      Node(Node(t.left, t.entry, t.right.left), t.right.entry, t.right.right)
    else t
  }

  lemma {:induction false} RotatedPieces(a: Tree, lo: Entry, b: Tree, up: Entry, d: Tree)
    ensures var u, l := Node(Node(a, lo, b), up, d), Node(a, lo, Node(b, up, d));
            RotatedL(u) == l && RotatedR(l) == u && Rows(u) == Rows(l)
  {
    assert Rows(Node(a, lo, b)) == Rows(a) + {lo.row} + Rows(b);
    assert Rows(Node(b, up, d)) == Rows(b) + {up.row} + Rows(d);
  }

  // What Restructure makes of the subtree under the pivot.
  ghost function Restructured(t: Tree): Tree {
    if Balance(t) > 1 then
      if Balance(t.left) >= 0 then RotatedL(t)
      else RotatedL(Node(RotatedR(t.left), t.entry, t.right))
    else if Balance(t) < -1 then
      if Balance(t.right) <= 0 then RotatedR(t)
      else RotatedR(Node(t.left, t.entry, RotatedL(t.right)))
    else t
  }

  // The subtree under a pivot, when one subtree of the pivot has just lost or gained one level
  // and the pivot itself used to have height h.
  ghost predicate Repairable(t: Tree, h: nat) {
    && t.Node?
    && Avl(t.left) && Avl(t.right)
    && -2 <= Balance(t) <= 2
    && -1 <= Height(t) - h <= 1
    && (Avl(t) || h <= Height(t))
  }

  // The left subtree is two levels too tall.
  lemma {:induction false} LeftHeavyRepairs(t: Tree)
    requires t.Node? && Avl(t.left) && Avl(t.right) && Balance(t) == 2
    ensures Avl(Restructured(t)) && Height(t) - 1 <= Height(Restructured(t)) <= Height(t)
  {
    var l := t.left;
    assert Avl(l.left) && Avl(l.right);
    if Balance(l) < 0 {
      var m := l.right;
      assert Avl(m.left) && Avl(m.right);
      var p, q := Node(l.left, l.entry, m.left), Node(m.right, t.entry, t.right);
      assert Restructured(t) == Node(p, m.entry, q);
      assert Avl(p) && Avl(q) && Height(p) == Height(q);
    } else {
      var q := Node(l.right, t.entry, t.right);
      assert Restructured(t) == Node(l.left, l.entry, q);
      assert Avl(q);
    }
  }

  lemma {:induction false} RightHeavyRepairs(t: Tree)
    requires t.Node? && Avl(t.left) && Avl(t.right) && Balance(t) == -2
    ensures Avl(Restructured(t)) && Height(t) - 1 <= Height(Restructured(t)) <= Height(t)
  {
    var r := t.right;
    assert Avl(r.left) && Avl(r.right);
    if Balance(r) > 0 {
      var m := r.left;
      assert Avl(m.left) && Avl(m.right);
      var p, q := Node(t.left, t.entry, m.left), Node(m.right, r.entry, r.right);
      assert Restructured(t) == Node(p, m.entry, q);
      assert Avl(p) && Avl(q) && Height(p) == Height(q);
    } else {
      var p := Node(t.left, t.entry, r.left);
      assert Restructured(t) == Node(p, r.entry, r.right);
      assert Avl(p);
    }
  }

  // One restructuring step repairs the pivot.
  lemma {:induction false} RestructureRepairs(t: Tree, h: nat)
    requires Repairable(t, h)
    ensures Avl(Restructured(t)) && -1 <= Height(Restructured(t)) - h <= 1
  {
    if Balance(t) == 2 {
      LeftHeavyRepairs(t);
    } else if Balance(t) == -2 {
      RightHeavyRepairs(t);
    }
  }

  // Walking one level up from a repaired subtree gives a repairable one.
  lemma {:induction false} RepairMovesUp(c: Context, t: Tree, h: nat)
    requires !c.Top?
    requires Avl(t) && -1 <= Height(t) - h <= 1 && ContextAvl(c, h)
    ensures Repairable(Fill(c, t), 1 + Max(h, Height(c.sibling)))
    ensures ContextAvl(c.up, 1 + Max(h, Height(c.sibling)))
  {
  }

  lemma {:induction false} RotationsKeepOrder(t: Tree)
    ensures InOrder(RotatedL(t)) == InOrder(t)
    ensures InOrder(RotatedR(t)) == InOrder(t)
  {
    if t.Node? && t.left.Node? {
      var a, x, b, e, d := InOrder(t.left.left), t.left.entry, InOrder(t.left.right), t.entry, InOrder(t.right);
      assert (a + [x] + b) + [e] + d == a + [x] + (b + [e] + d);
    }
    if t.Node? && t.right.Node? {
      var a, e, b, x, d := InOrder(t.left), t.entry, InOrder(t.right.left), t.right.entry, InOrder(t.right.right);
      assert a + [e] + (b + [x] + d) == (a + [e] + b) + [x] + d;
    }
  }

  lemma {:induction false} RestructureKeepsOrder(t: Tree)
    ensures InOrder(Restructured(t)) == InOrder(t)
  {
    RotationsKeepOrder(t);
    if t.Node? {
      RotationsKeepOrder(t.left);
      RotationsKeepOrder(t.right);
      RotationsKeepOrder(Node(RotatedR(t.left), t.entry, t.right));
      RotationsKeepOrder(Node(t.left, t.entry, RotatedL(t.right)));
    }
  }

  // After a rotation the pivot hangs directly below the new top.
  lemma {:induction false} PivotGoesDown(t: Tree)
    requires t.Node? && (Balance(t) < -1 || Balance(t) > 1)
    ensures var u := Restructured(t);
            && u.Node?
            && (Balance(t) > 1 ==> t.left.Node? && u.right.Node? && u.right.entry == t.entry)
            && (Balance(t) > 1 && Balance(t.left) < 0 ==> t.left.right.Node?)
            && (Balance(t) < -1 ==> t.right.Node? && u.left.Node? && u.left.entry == t.entry)
            && (Balance(t) < -1 && Balance(t.right) > 0 ==> t.right.left.Node?)
  {
  }

  // Nothing on the way up from t is out of balance, so a whole pass leaves the tree alone.
  ghost predicate PathBalanced(c: Context, t: Tree) {
    -1 <= Balance(t) <= 1 && (c.Top? || PathBalanced(c.up, Fill(c, t)))
  }

  // A pass starting at the top of t repairs the tree.
  ghost predicate PassRepairs(c: Context, t: Tree) {
    exists h: nat :: Repairable(t, h) && ContextAvl(c, h)
  }

  // One step of a pass: the pivot's subtree becomes Restructured(t); where that changes it, the
  // next pivot is the new top, otherwise the parent.
  lemma {:induction false} RestructureStep(c: Context, t: Tree, repairs: bool)
    requires t.Node? && if repairs then PassRepairs(c, t) else PathBalanced(c, t)
    ensures var u := Restructured(t);
            && u.Node? && InOrder(Plug(c, u)) == InOrder(Plug(c, t))
            && (!repairs ==> u == t)
            && (u == t <==> -1 <= Balance(t) <= 1)
            && (u == t && !c.Top? ==> if repairs then PassRepairs(c.up, Fill(c, t)) else PathBalanced(c.up, Fill(c, t)))
            && (u == t && c.Top? && repairs ==> Avl(t))
            && (u != t ==>
                && -1 <= Balance(u) <= 1
                && ((u.left.Node? && u.left.entry == t.entry) || (u.right.Node? && u.right.entry == t.entry)))
            && (u != t ==> PassRepairs(c, u))
  {
    var u := Restructured(t);
    RestructureKeepsOrder(t);
    PlugInOrder(c, t);
    PlugInOrder(c, u);
    if !(-1 <= Balance(t) <= 1) {
      PivotGoesDown(t);
      PivotChanges(t);
    }
    if repairs {
      var h: nat :| Repairable(t, h) && ContextAvl(c, h);
      RestructureRepairs(t, h);
      if u != t {
        assert Repairable(u, h);
      } else if !c.Top? {
        RepairMovesUp(c, t, h);
      }
    }
  }

  lemma {:induction false} PivotChanges(t: Tree)
    requires t.Node? && (Balance(t) < -1 || Balance(t) > 1)
    ensures Restructured(t) != t
  {
    PivotGoesDown(t);
    var u := Restructured(t);
    if Balance(t) > 1 {
      assert u.right.right == t.right;
    } else {
      assert u.left.left == t.left;
    }
  }

  lemma {:induction false} AvlPassRepairs(c: Context, t: Tree)
    requires Avl(Plug(c, t)) && t.Node?
    ensures PassRepairs(c, t)
  {
    PlugAvl(c, t);
    assert Repairable(t, Height(t));
  }

  // ---------------------------------------------------------------------------
  // Deleting a row with two children: the predecessor is taken from the end of the
  // left subtree's right spine and put in the row's place.

  ghost predicate RightSpine(c: Context) { c.Top? || (c.OnRight? && RightSpine(c.up)) }

  // The context c with its hole standing where the hole of d was.
  ghost function Stack(c: Context, d: Context): Context {
    match c
    case Top => d
    case OnLeft(up, e, s) => OnLeft(Stack(up, d), e, s)
    case OnRight(up, s, e) => OnRight(Stack(up, d), s, e)
  }

  lemma {:induction false} PlugStack(c: Context, d: Context, t: Tree)
    ensures Plug(Stack(c, d), t) == Plug(d, Plug(c, t))
  {
    if !c.Top? {
      assert Fill(Stack(c, d), t) == Fill(c, t) && Stack(c, d).up == Stack(c.up, d);
      PlugStack(c.up, d, Fill(c, t));
    }
  }

  lemma {:induction false} RightSpineAfter(c: Context)
    requires RightSpine(c)
    ensures After(c) == []
  {
    if !c.Top? {
      RightSpineAfter(c.up);
    }
  }

  // Which row stands at a node does not matter to the balance above it.
  lemma {:induction false} StackAvlOtherEntry(c: Context, d: Context, e: Entry, f: Entry, s: Tree, h: nat)
    requires ContextAvl(Stack(c, OnLeft(d, e, s)), h)
    ensures ContextAvl(Stack(c, OnLeft(d, f, s)), h)
  {
    if !c.Top? {
      StackAvlOtherEntry(c.up, d, e, f, s, 1 + Max(h, Height(c.sibling)));
    }
  }

  // Replacing a balanced t at the end of a right spine by a t1 at most one level lower: either
  // everything is still balanced, or the height at the top of the spine did not change.
  lemma {:induction false} SpineShrinks(c: Context, t: Tree, t1: Tree)
    requires RightSpine(c) && Avl(Plug(c, t))
    requires Height(t) - 1 <= Height(t1) <= Height(t)
    requires Avl(t1) || Height(t1) == Height(t)
    ensures Height(Plug(c, t)) - 1 <= Height(Plug(c, t1)) <= Height(Plug(c, t))
    ensures Avl(Plug(c, t1)) || Height(Plug(c, t1)) == Height(Plug(c, t))
  {
    if !c.Top? {
      PlugAvl(c, t);
      var f, f1 := Fill(c, t), Fill(c, t1);
      assert Height(f) == 1 + Max(Height(c.sibling), Height(t));
      assert Height(f1) == 1 + Max(Height(c.sibling), Height(t1));
      assert Avl(f1) <==> Avl(t1) && Avl(c.sibling) && -1 <= Height(c.sibling) - Height(t1) <= 1;
      SpineShrinks(c.up, f, f1);
    }
  }

  // The pass from the predecessor's new place is either a repairing pass or a no-op ...
  lemma {:induction false} FirstDeletePass(c: Context, row: Entry, spine: Context, p: Tree, pred: Entry, r: Tree)
    requires RightSpine(spine)
    requires var l := Plug(spine, Node(p, pred, Leaf)); Avl(Plug(c, Node(l, row, r)))
    ensures var t1 := Node(Plug(spine, p), pred, r);
            && (Avl(t1.left) ==> PassRepairs(c, t1))
            && (!Avl(t1.left) ==> PathBalanced(c, t1))
  {
    var u := Node(p, pred, Leaf);
    var l := Plug(spine, u);
    var t, t1 := Node(l, row, r), Node(Plug(spine, p), pred, r);
    PlugAvl(c, t);
    assert Avl(l);
    PlugAvl(spine, u);
    assert Height(u) == 1 + Height(p) && Avl(p);
    SpineShrinks(spine, u, p);
    if Avl(t1.left) {
      assert Repairable(t1, Height(t));
    } else {
      assert Height(t1) == Height(t);
      SameHeightPathBalanced(c, t1);
    }
  }

  lemma {:induction false} SameHeightPathBalanced(c: Context, t: Tree)
    requires ContextAvl(c, Height(t)) && -1 <= Balance(t) <= 1
    ensures PathBalanced(c, t)
  {
    if !c.Top? {
      assert Height(Fill(c, t)) == 1 + Max(Height(t), Height(c.sibling));
      SameHeightPathBalanced(c.up, Fill(c, t));
    }
  }

  // ... and in the second case the pass from the predecessor's old parent repairs.
  lemma {:induction false} SecondDeletePass(c: Context, row: Entry, spine: Context, p: Tree, pred: Entry, r: Tree)
    requires spine.OnRight?
    requires var l := Plug(spine, Node(p, pred, Leaf)); Avl(Plug(c, Node(l, row, r)))
    ensures PassRepairs(Stack(spine.up, OnLeft(c, pred, r)), Fill(spine, p))
  {
    var u := Node(p, pred, Leaf);
    var d := OnLeft(c, row, r);
    PlugStack(spine, d, u);
    PlugAvl(Stack(spine, d), u);
    var h := 1 + Max(Height(u), Height(spine.sibling));
    StackAvlOtherEntry(spine.up, c, row, pred, r, h);
    assert Height(u) == 1 + Height(p) && Avl(p);
    assert Repairable(Fill(spine, p), h);
  }

  lemma {:induction false} SpineOrder(spine: Context, p: Tree, pred: Entry)
    requires RightSpine(spine)
    ensures InOrder(Plug(spine, Node(p, pred, Leaf))) == InOrder(Plug(spine, p)) + [pred]
  {
    PlugInOrder(spine, Node(p, pred, Leaf));
    PlugInOrder(spine, p);
    RightSpineAfter(spine);
  }

  // The in-order reading loses exactly the deleted row.
  lemma {:induction false} DeleteOrder(c: Context, row: Entry, spine: Context, p: Tree, pred: Entry, r: Tree)
    requires RightSpine(spine)
    ensures var l := Plug(spine, Node(p, pred, Leaf));
            && |Before(c)| + |InOrder(l)| < |InOrder(Plug(c, Node(l, row, r)))|
            && InOrder(Plug(c, Node(Plug(spine, p), pred, r)))
               == Removed(InOrder(Plug(c, Node(l, row, r))), |Before(c)| + |InOrder(l)|)
  {
    SpineOrder(spine, p, pred);
    NodeOrder(c, Plug(spine, Node(p, pred, Leaf)), row, r);
    NodeOrder(c, Plug(spine, p), pred, r);
    RegroupEnd(Before(c), InOrder(Plug(spine, p)), pred);
    RemovedMiddle(Before(c) + InOrder(Plug(spine, Node(p, pred, Leaf))), row, InOrder(r) + After(c));
  }

  lemma {:induction false} RemovedMiddle(a: seq<Entry>, e: Entry, b: seq<Entry>)
    ensures Removed(a + [e] + b, |a|) == a + b
  {
  }

  // ---------------------------------------------------------------------------
  // Inserting

  // How many rows the descent leaves before a new row with these columns.
  ghost function InsertPosition(collate: Collator, t: Tree, cols: Cols): (p: nat)
    ensures p <= |InOrder(t)|
  {
    match t
    case Leaf => 0
    case Node(l, e, r) =>
      if RowLess(collate, cols, e.row.cols) then InsertPosition(collate, l, cols)
      else |InOrder(l)| + 1 + InsertPosition(collate, r, cols)
  }

  // A place for a row with these columns: not before the row ahead of it, before the row behind it.
  ghost predicate Fits(collate: Collator, s: seq<Entry>, p: nat, cols: Cols) {
    && p <= |s|
    && (p > 0 ==> !RowLess(collate, cols, s[p - 1].row.cols))
    && (p < |s| ==> RowLess(collate, cols, s[p].row.cols))
  }

  lemma {:induction false} InsertPositionFits(collate: Collator, t: Tree, cols: Cols)
    ensures Fits(collate, InOrder(t), InsertPosition(collate, t, cols), cols)
  {
    match t
    case Leaf =>
    case Node(l, e, r) =>
      InsertPositionFits(collate, l, cols);
      InsertPositionFits(collate, r, cols);
      var a, b := InOrder(l), InOrder(r);
      var s := InOrder(t);
      assert s == a + [e] + b;
      if RowLess(collate, cols, e.row.cols) {
        var q := InsertPosition(collate, l, cols);
        assert q > 0 ==> s[q - 1] == a[q - 1];
        assert s[q] == if q < |a| then a[q] else e;
      } else {
        var q := InsertPosition(collate, r, cols);
        var p := |a| + 1 + q;
        assert s[p - 1] == if q > 0 then b[q - 1] else e;
        assert p < |s| ==> s[p] == b[q];
      }
  }

  // Rows in sorted order, all built to one schema.
  ghost predicate Sorted(collate: Collator, s: seq<Entry>) {
    forall i, j :: 0 <= i < j < |s| ==> !RowLess(collate, s[j].row.cols, s[i].row.cols)
  }

  ghost predicate Conforming(schema: seq<ColFlags>, s: seq<Entry>) {
    forall i :: 0 <= i < |s| ==> RowOk(schema, s[i].row.cols)
  }

  // In a sorted table the fitting place is unique: after all rows the new one is not less than.
  lemma {:induction false} FitsIsUpperBound(collate: Collator, schema: seq<ColFlags>, s: seq<Entry>, p: nat, cols: Cols)
    requires TotalPreorder(collate) && Conforming(schema, s) && RowOk(schema, cols) && Sorted(collate, s)
    requires Fits(collate, s, p, cols)
    ensures forall i :: 0 <= i < p ==> !RowLess(collate, cols, s[i].row.cols)
    ensures forall i :: p <= i < |s| ==> RowLess(collate, cols, s[i].row.cols)
  {
    forall i | 0 <= i < p
      ensures !RowLess(collate, cols, s[i].row.cols)
    {
      if i < p - 1 {
        RowNotGreaterTransitive(collate, schema, s[i].row.cols, s[p - 1].row.cols, cols);
      }
    }
    forall i | p <= i < |s|
      ensures RowLess(collate, cols, s[i].row.cols)
    {
      if i > p && !RowLess(collate, cols, s[i].row.cols) {
        RowNotGreaterTransitive(collate, schema, s[p].row.cols, s[i].row.cols, cols);
      }
    }
  }

  lemma {:induction false} InsertOrder(c: Context, e: Entry)
    ensures |Before(c)| <= |InOrder(Plug(c, Leaf))|
    ensures InOrder(Plug(c, Node(Leaf, e, Leaf))) == Inserted(InOrder(Plug(c, Leaf)), |Before(c)|, e)
  {
    PlugInOrder(c, Leaf);
    PlugInOrder(c, Node(Leaf, e, Leaf));
    assert Before(c) + [] + After(c) == Before(c) + After(c);
    assert InOrder(Node(Leaf, e, Leaf)) == [e];
  }

  // A row put in at a leaf makes its way up repairable.
  lemma {:induction false} InsertRepairs(c: Context, e: Entry)
    requires Avl(Plug(c, Leaf))
    ensures PassRepairs(c, Node(Leaf, e, Leaf))
  {
    PlugAvl(c, Leaf);
    assert Repairable(Node(Leaf, e, Leaf), 0);
  }

  lemma {:induction false} PredecessorPlugs(c: Context, t: Tree, spine: Context, u: Tree)
    requires t.Node? && Plug(spine, u) == t.left && u.Node? && u.right.Leaf?
    ensures var full, l1 := Stack(spine, OnLeft(c, t.entry, t.right)), Plug(spine, u.left);
            Plug(full, u) == Plug(c, t) && Plug(full, u.left) == Plug(c, Node(l1, t.entry, t.right))
    ensures Rows(t.left) == Rows(Plug(spine, u.left)) + {u.entry.row}
    ensures var l1 := Plug(spine, u.left);
            && Rows(Plug(c, Node(l1, t.entry, t.right))) == ContextRows(c) + Rows(l1) + {t.entry.row} + Rows(t.right)
            && Rows(Plug(c, Node(l1, u.entry, t.right))) == ContextRows(c) + Rows(l1) + {u.entry.row} + Rows(t.right)
            && Rows(Plug(c, t)) == ContextRows(c) + Rows(l1) + {u.entry.row} + {t.entry.row} + Rows(t.right)
  {
    var l1 := Plug(spine, u.left);
    PlugStack(spine, OnLeft(c, t.entry, t.right), u);
    PlugStack(spine, OnLeft(c, t.entry, t.right), u.left);
    PlugRows(c, t);
    PlugRows(c, Node(l1, t.entry, t.right));
    PlugRows(c, Node(l1, u.entry, t.right));
    PlugRows(spine, u);
    PlugRows(spine, u.left);
  }

  // The deleted row and its predecessor occur nowhere else.
  lemma {:induction false} PredecessorApart(c: Context, t: Tree, spine: Context, u: Tree)
    requires t.Node? && Plug(spine, u) == t.left && u.Node? && u.right.Leaf? && Distinct(Plug(c, t))
    ensures u.entry.row != t.entry.row
    ensures u.entry.row !in Rows(Plug(spine, u.left)) + Rows(t.right) + ContextRows(c)
    ensures t.entry.row !in Rows(Plug(spine, u.left)) + Rows(t.right) + ContextRows(c)
    ensures t.entry.row !in Rows(u.left)
  {
    PlugDistinct(c, t);
    PlugRows(spine, u);
    PlugRows(spine, u.left);
    PlugDistinct(spine, u);
  }

  // ---------------------------------------------------------------------------
  // Deleting a row with at most one child: the child takes its place.

  ghost predicate OnlyChild(t: Tree, s: Tree) {
    t.Node? && ((t.right.Leaf? && s == t.left) || (t.left.Leaf? && s == t.right))
  }

  lemma {:induction false} OnlyChildRepairs(c: Context, t: Tree, s: Tree)
    requires Avl(Plug(c, t)) && OnlyChild(t, s)
    ensures Avl(s)
    ensures c.Top? ==> Plug(c, s) == s
    ensures !c.Top? ==> PassRepairs(c.up, Fill(c, s)) && Plug(c.up, Fill(c, s)) == Plug(c, s)
  {
    PlugAvl(c, t);
    if !c.Top? {
      RepairMovesUp(c, s, Height(t));
    }
  }

  lemma {:induction false} LeafOrder()
    ensures InOrder(Leaf) == []
  {
  }

  lemma {:induction false} OnlyChildOrder(c: Context, t: Tree, s: Tree)
    requires OnlyChild(t, s)
    ensures var p := |Before(c)| + |InOrder(t.left)|;
            p < |InOrder(Plug(c, t))| && InOrder(Plug(c, s)) == Removed(InOrder(Plug(c, t)), p)
  {
    hide Before, After, Plug, InOrder, Removed;
    var a, b := Before(c) + InOrder(t.left), InOrder(t.right) + After(c);
    LeafOrder();
    NodeOrder(c, t.left, t.entry, t.right);
    PlugInOrder(c, s);
    RemovedMiddle(a, t.entry, b);
    assert Before(c) + [] == Before(c) && [] + After(c) == After(c);
    assert a + b == Before(c) + InOrder(s) + After(c);
  }

  // ---------------------------------------------------------------------------
  // Hiding rows

  // Only the entry at one node changes.
  lemma {:induction false} ReplaceEntry(c: Context, l: Tree, e: Entry, r: Tree, f: Entry)
    requires e.row == f.row
    ensures Avl(Plug(c, Node(l, e, r))) <==> Avl(Plug(c, Node(l, f, r)))
    ensures Rows(Plug(c, Node(l, e, r))) == Rows(Plug(c, Node(l, f, r)))
  {
    hide Plug, Avl, Rows, ContextAvl;
    SameNode(l, e, r, f);
    PlugAvl(c, Node(l, e, r));
    PlugAvl(c, Node(l, f, r));
    PlugRows(c, Node(l, e, r));
    PlugRows(c, Node(l, f, r));
  }

  lemma {:induction false} SameNode(l: Tree, e: Entry, r: Tree, f: Entry)
    requires e.row == f.row
    ensures Height(Node(l, e, r)) == Height(Node(l, f, r)) && Rows(Node(l, e, r)) == Rows(Node(l, f, r))
    ensures Avl(Node(l, e, r)) <==> Avl(Node(l, f, r))
  {
  }

  lemma {:induction false} ReplaceEntryOrder(c: Context, l: Tree, e: Entry, r: Tree, f: Entry)
    ensures var p, s := |Before(c)| + |InOrder(l)|, InOrder(Plug(c, Node(l, e, r)));
            p < |s| && InOrder(Plug(c, Node(l, f, r))) == s[p := f]
  {
    hide Plug, InOrder, Before, After;
    NodeOrder(c, l, e, r);
    NodeOrder(c, l, f, r);
    ReplaceMiddle(Before(c) + InOrder(l), e, InOrder(r) + After(c), f);
  }

  lemma {:induction false} ReplaceMiddle(a: seq<Entry>, e: Entry, b: seq<Entry>, f: Entry)
    ensures (a + [e] + b)[|a| := f] == a + [f] + b
  {
  }

  // The same rows in the same places, whatever their hidden flags.
  ghost predicate SameRows(s: seq<Entry>, t: seq<Entry>) {
    |s| == |t| && forall i :: 0 <= i < |s| ==> s[i].row == t[i].row
  }

  lemma {:induction false} SamePosition(s: seq<Entry>, t: seq<Entry>, r: TableRow?)
    requires SameRows(s, t) && NoRepeats(s)
    ensures Position(s, r) == Position(t, r)
  {
    if r != null && HasRow(s, r) {
      assert t[IndexOf(s, r)].row == r;
      assert NoRepeats(t);
      PositionAt(t, IndexOf(s, r));
    } else {
      assert r != null ==> !HasRow(t, r);
    }
  }

  // The rows strictly between h and j hidden, the others as they were.
  ghost function Collapsed(s: seq<Entry>, h: nat, j: nat): (t: seq<Entry>)
    ensures SameRows(t, s)
    ensures forall i :: 0 <= i < |s| ==> t[i].hidden == ((h < i < j) || s[i].hidden)
  {
    seq(|s|, i requires 0 <= i < |s| => Entry(s[i].row, (h < i < j) || s[i].hidden))
  }

  // The rows strictly between h and j that have `width` columns shown, the others as they were.
  ghost function Expanded(s: seq<Entry>, h: nat, j: nat, width: nat): (t: seq<Entry>)
    ensures SameRows(t, s)
    ensures forall i :: 0 <= i < |s| ==> t[i].hidden == (s[i].hidden && !(h < i < j && |s[i].row.cols| == width))
  {
    seq(|s|, i requires 0 <= i < |s| => Entry(s[i].row, s[i].hidden && !(h < i < j && |s[i].row.cols| == width)))
  }

  // The keys of the rows that have `width` columns.
  ghost function Layer(s: seq<Entry>, width: nat): seq<Key> {
    if s == [] then []
    else Layer(s[..|s| - 1], width) + if |s[|s| - 1].row.cols| == width then [s[|s| - 1].row.key] else []
  }

  lemma {:induction false} LayerStep(s: seq<Entry>, h: nat, j: nat, width: nat)
    requires h < j < |s|
    ensures Layer(s[h + 1..h + 1], width) == []
    ensures Layer(s[h + 1..j + 1], width)
            == Layer(s[h + 1..j], width) + if |s[j].row.cols| == width then [s[j].row.key] else []
  {
    var t := s[h + 1..j + 1];
    assert t[..|t| - 1] == s[h + 1..j] && t[|t| - 1] == s[j];
  }

  lemma {:induction false} CollapseStep(s: seq<Entry>, h: nat, j: nat)
    requires h < j < |s|
    ensures Collapsed(s, h, j)[j].row == s[j].row
    ensures Collapsed(s, h, j + 1) == Collapsed(s, h, j)[j := Entry(s[j].row, true)]
    ensures Keys(s[h + 1..j + 1]) == Keys(s[h + 1..j]) + [s[j].row.key]
  {
  }

  lemma {:induction false} ExpandStep(s: seq<Entry>, h: nat, j: nat, width: nat)
    requires h < j < |s|
    ensures Expanded(s, h, j, width)[j].row == s[j].row
    ensures Expanded(s, h, j + 1, width)
            == if |s[j].row.cols| == width then Expanded(s, h, j, width)[j := Entry(s[j].row, false)]
               else Expanded(s, h, j, width)
  {
  }

  // The end of the category under the header at h: the first row after it whose leading columns
  // are greater than all of the header's.
  ghost predicate IsBlockEnd(collate: Collator, s: seq<Entry>, h: nat, j: nat) {
    && h < j <= |s|
    && var cols := s[h].row.cols;
       && (forall i :: h < i < j ==> !RowLess(collate, cols, Prefix(s[i].row.cols, |cols|)))
       && (j < |s| ==> RowLess(collate, cols, Prefix(s[j].row.cols, |cols|)))
  }

  // The rows strictly between h and j are exactly those after the header that agree with it on
  // the header's columns.
  ghost predicate IsCategory(collate: Collator, s: seq<Entry>, h: nat, j: nat) {
    && h < j <= |s|
    && var cols := s[h].row.cols;
       forall i :: h < i < |s| ==> (i < j <==> Equivalent(collate, cols, Prefix(s[i].row.cols, |cols|)))
  }

  // In a sorted table the block is exactly the rows after the header that agree with it on the
  // header's columns, and it is contiguous: no row behind its end agrees.
  lemma {:induction false} BlockIsCategory(collate: Collator, schema: seq<ColFlags>, s: seq<Entry>, h: nat, j: nat)
    requires TotalPreorder(collate) && Conforming(schema, s) && Sorted(collate, s) && IsBlockEnd(collate, s, h, j)
    ensures IsCategory(collate, s, h, j)
  {
    var cols := s[h].row.cols;
    assert Prefix(cols, |cols|) == cols;
    forall i | h < i < |s|
      ensures i < j <==> Equivalent(collate, cols, Prefix(s[i].row.cols, |cols|))
    {
      PrefixMonotone(collate, cols, s[i].row.cols, |cols|);
      if j < i {
        PrefixMonotone(collate, s[j].row.cols, s[i].row.cols, |cols|);
        var a, b := Prefix(s[j].row.cols, |cols|), Prefix(s[i].row.cols, |cols|);
        if !RowLess(collate, cols, b) {
          RowNotGreaterTransitive(collate, schema, a, b, cols);
        }
      }
    }
  }

  // ---------------------------------------------------------------------------
  // Searching

  // How many rows the binary search leaves before the sort key.
  ghost function LowerPosition(collate: Collator, t: Tree, cols: Cols): (p: nat)
    ensures p <= |InOrder(t)|
  {
    match t
    case Leaf => 0
    case Node(l, e, r) =>
      if RowLess(collate, e.row.cols, cols) then |InOrder(l)| + 1 + LowerPosition(collate, r, cols)
      else LowerPosition(collate, l, cols)
  }

  // The row ahead is less than the key, the row behind is not.
  ghost predicate Bounds(collate: Collator, s: seq<Entry>, p: nat, cols: Cols) {
    && p <= |s|
    && (p > 0 ==> RowLess(collate, s[p - 1].row.cols, cols))
    && (p < |s| ==> !RowLess(collate, s[p].row.cols, cols))
  }

  lemma {:induction false} LowerPositionBounds(collate: Collator, t: Tree, cols: Cols)
    ensures Bounds(collate, InOrder(t), LowerPosition(collate, t, cols), cols)
  {
    match t
    case Leaf =>
    case Node(l, e, r) =>
      LowerPositionBounds(collate, l, cols);
      LowerPositionBounds(collate, r, cols);
      var a, b := InOrder(l), InOrder(r);
      var s := InOrder(t);
      assert s == a + [e] + b;
      if RowLess(collate, e.row.cols, cols) {
        var q := LowerPosition(collate, r, cols);
        var p := |a| + 1 + q;
        assert s[p - 1] == if q > 0 then b[q - 1] else e;
        assert p < |s| ==> s[p] == b[q];
      } else {
        var q := LowerPosition(collate, l, cols);
        assert q > 0 ==> s[q - 1] == a[q - 1];
        assert s[q] == if q < |a| then a[q] else e;
      }
  }

  ghost predicate IsLowerBound(collate: Collator, s: seq<Entry>, p: int, cols: Cols) {
    && 0 <= p <= |s|
    && (forall i :: 0 <= i < p ==> RowLess(collate, s[i].row.cols, cols))
    && (forall i :: p <= i < |s| ==> !RowLess(collate, s[i].row.cols, cols))
  }

  // In a sorted table that place is the first row not less than the key.
  lemma {:induction false} BoundsIsFirst(collate: Collator, schema: seq<ColFlags>, s: seq<Entry>, p: nat, cols: Cols)
    requires TotalPreorder(collate) && Conforming(schema, s) && RowOk(schema, cols) && Sorted(collate, s)
    requires Bounds(collate, s, p, cols)
    ensures IsLowerBound(collate, s, p, cols)
  {
    forall i | 0 <= i < p
      ensures RowLess(collate, s[i].row.cols, cols)
    {
      if i < p - 1 && !RowLess(collate, s[i].row.cols, cols) {
        RowNotGreaterTransitive(collate, schema, cols, s[i].row.cols, s[p - 1].row.cols);
      }
    }
    forall i | p <= i < |s|
      ensures !RowLess(collate, s[i].row.cols, cols)
    {
      if i > p {
        RowNotGreaterTransitive(collate, schema, cols, s[p].row.cols, s[i].row.cols);
      }
    }
  }

  ghost predicate Equivalent(collate: Collator, a: Cols, b: Cols) {
    !RowLess(collate, a, b) && !RowLess(collate, b, a)
  }

  // What Find is to report: whether a row is equivalent to the key, and the first one's key.
  ghost predicate IsFound(collate: Collator, s: seq<Entry>, cols: Cols, found: bool, key: Key) {
    && (found <==> exists i :: 0 <= i < |s| && Equivalent(collate, s[i].row.cols, cols))
    && (found ==> exists i :: 0 <= i < |s| && s[i].row.key == key && Equivalent(collate, s[i].row.cols, cols)
                              && forall j :: 0 <= j < i ==> !Equivalent(collate, s[j].row.cols, cols))
  }

  // Find's test on the row at the lower bound is right: if it fails no row is equivalent to the key.
  lemma {:induction false} FindIsComplete(collate: Collator, schema: seq<ColFlags>, s: seq<Entry>, p: nat,
      cols: Cols, key: Key)
    requires TotalPreorder(collate) && Conforming(schema, s) && RowOk(schema, cols) && Sorted(collate, s)
    requires Bounds(collate, s, p, cols)
    requires p < |s| && !RowLess(collate, cols, s[p].row.cols) ==> key == s[p].row.key
    ensures IsFound(collate, s, cols, p < |s| && !RowLess(collate, cols, s[p].row.cols), key)
  {
    BoundsIsFirst(collate, schema, s, p, cols);
    if p < |s| && !RowLess(collate, cols, s[p].row.cols) {
      assert Equivalent(collate, s[p].row.cols, cols);
    }
    forall i | 0 <= i < |s| && Equivalent(collate, s[i].row.cols, cols)
      ensures p < |s| && !RowLess(collate, cols, s[p].row.cols)
    {
      assert p <= i;
      if p < i {
        RowNotGreaterTransitive(collate, schema, s[p].row.cols, s[i].row.cols, cols);
      }
    }
  }

  // ---------------------------------------------------------------------------
  // A balanced tree of height h has at least Fib(h + 2) - 1 rows.

  function Fib(n: nat): nat { if n < 2 then n else Fib(n - 2) + Fib(n - 1) }

  lemma {:induction false} FibMonotone(m: nat, n: nat)
    requires m <= n
    ensures Fib(m) <= Fib(n)
    decreases n
  {
    if m < n && n >= 2 {
      FibMonotone(Max(m, 1) as nat, n - 1);
      FibMonotone(m, Max(m, 1));
    }
  }

  lemma {:induction false} AvlHasManyRows(t: Tree)
    requires Avl(t)
    ensures |InOrder(t)| + 1 >= Fib(Height(t) + 2)
  {
    match t
    case Leaf =>
    case Node(l, e, r) =>
      AvlHasManyRows(l);
      AvlHasManyRows(r);
      var h := Height(t);
      FibMonotone(h, Height(l) + 2);
      FibMonotone(h, Height(r) + 2);
      FibMonotone(h + 1, Max(Height(l), Height(r)) + 2);
  }
}
