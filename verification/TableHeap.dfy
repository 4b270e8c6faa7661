// How row objects are linked to form a given tree.
module TableHeap {
  import opened TableTree

  ghost function Ptr(t: Tree): TableRow? { if t.Leaf? then null else t.entry.row }

  ghost function TopRow(t: Tree): (s: set<TableRow>)
    ensures s <= Rows(t)
  {
    if t.Leaf? then {} else {t.entry.row}
  }

  // All rows but the top one.
  ghost function InnerRows(t: Tree): (s: set<TableRow>)
    ensures s <= Rows(t)
  {
    if t.Leaf? then {} else Rows(t.left) + Rows(t.right)
  }

  // The top of t hangs below p, on the given side.
  ghost predicate HangsBelow(t: Tree, p: TableRow, side: bool)
    reads TopRow(t)`parent, TopRow(t)`isLeft
  {
    t.Node? ==> t.entry.row.parent == p && t.entry.row.isLeft == side
  }

  ghost predicate Linked(t: Tree)
    reads Rows(t)`left, Rows(t)`right, Rows(t)`hidden, InnerRows(t)`parent, InnerRows(t)`isLeft
  {
    match t
    case Leaf => true
    case Node(l, e, r) =>
      && e.row.left == Ptr(l) && e.row.right == Ptr(r) && e.row.hidden == e.hidden
      && HangsBelow(l, e.row, true) && HangsBelow(r, e.row, false)
      && Linked(l) && Linked(r)
  }

  // The row above the hole; the sentinel at the top.
  ghost function ParentOf(c: Context, root: TableRow): (p: TableRow)
    ensures p in ContextRows(c) + {root}
  {
    if c.Top? then root else c.entry.row
  }

  ghost predicate SentinelLinked(root: TableRow, top: TableRow?)
    reads root`left, root`right, root`parent, root`isLeft
  {
    root.right == top && root.left == null && root.parent == null && !root.isLeft
  }

  // The pointer that names what hangs in the hole.
  function HoleOf(c: Context, root: TableRow): TableRow?
    reads root`right, (if c.OnLeft? then {c.entry.row} else {})`left, (if c.OnRight? then {c.entry.row} else {})`right
  {
    match c
    case Top => root.right
    case OnLeft(up, e, s) => e.row.left
    case OnRight(up, s, e) => e.row.right
  }

  ghost function FrameRow(c: Context): (s: set<TableRow>)
    ensures s <= ContextRows(c)
  {
    if c.Top? then {} else {c.entry.row}
  }

  ghost function Above(c: Context): (s: set<TableRow>)
    ensures s <= ContextRows(c)
  {
    if c.Top? then {} else ContextRows(c.up) + Rows(c.sibling)
  }

  // Everything around the hole but that one pointer.
  ghost predicate Around(c: Context, root: TableRow)
    reads (if c.OnRight? then FrameRow(c) else {})`left, (if c.OnLeft? then FrameRow(c) else {})`right
    reads FrameRow(c)`parent, FrameRow(c)`isLeft, FrameRow(c)`hidden
    reads Above(c)`left, Above(c)`right, Above(c)`parent, Above(c)`isLeft, Above(c)`hidden
    reads root`left, (if c.Top? then {} else {root})`right, root`parent, root`isLeft
  {
    if c.Top? then root.left == null && root.parent == null && !root.isLeft
    else
      var row := c.entry.row;
      && (if c.OnLeft? then row.right else row.left) == Ptr(c.sibling)
      && row.hidden == c.entry.hidden
      && row.parent == ParentOf(c.up, root) && row.isLeft == c.up.OnLeft?
      && HangsBelow(c.sibling, row, !c.OnLeft?) && Linked(c.sibling)
      && HoleOf(c.up, root) == row && Around(c.up, root)
  }

  // Everything around the hole, with the row `hole` hanging in it.
  ghost predicate ContextLinked(c: Context, root: TableRow, hole: TableRow?)
    reads ContextRows(c)`left, ContextRows(c)`right, ContextRows(c)`parent, ContextRows(c)`isLeft, ContextRows(c)`hidden
    reads root`left, root`right, root`parent, root`isLeft
  {
    HoleOf(c, root) == hole && Around(c, root)
  }

  // The parent pointers alone.
  ghost predicate ChainUp(c: Context, root: TableRow)
    reads Spine(c)`parent
  {
    c.Top? || (c.entry.row.parent == ParentOf(c.up, root) && ChainUp(c.up, root))
  }

  ghost predicate TreeLinked(t: Tree, root: TableRow)
    reads Rows(t)`left, Rows(t)`right, Rows(t)`parent, Rows(t)`isLeft, Rows(t)`hidden
    reads root`left, root`right, root`parent, root`isLeft
  {
    Linked(t) && HangsBelow(t, root, false) && SentinelLinked(root, Ptr(t))
  }

  // The stored heights and visible counts are the true ones.
  ghost predicate Exact(t: Tree)
    reads Rows(t)`height, Rows(t)`branchCount
  {
    match t
    case Leaf => true
    case Node(l, e, r) =>
      && e.row.height == Height(t) && e.row.branchCount == Count(t)
      && Exact(l) && Exact(r)
  }

  ghost predicate SiblingsExact(c: Context)
    reads SiblingRows(c)`height, SiblingRows(c)`branchCount
  {
    c.Top? || (Exact(c.sibling) && SiblingsExact(c.up))
  }

  ghost predicate HoleLinked(c: Context, t: Tree, root: TableRow)
    reads Rows(t)`left, Rows(t)`right, Rows(t)`parent, Rows(t)`isLeft, Rows(t)`hidden
    reads ContextRows(c)`left, ContextRows(c)`right, ContextRows(c)`parent, ContextRows(c)`isLeft, ContextRows(c)`hidden
    reads root`left, root`right, root`parent, root`isLeft
  {
    Linked(t) && HangsBelow(t, ParentOf(c, root), c.OnLeft?) && ContextLinked(c, root, Ptr(t))
  }

  // A linked tree is a linked subtree in a linked context.
  lemma {:induction false} PlugLinked(c: Context, t: Tree, root: TableRow)
    ensures TreeLinked(Plug(c, t), root) <==> HoleLinked(c, t, root)
  {
    if !c.Top? {
      PlugLinked(c.up, Fill(c, t), root);
    }
  }

  // Subtree t and its context c, linked into one tree below the sentinel.
  ghost predicate Opened(c: Context, t: Tree, root: TableRow)
    reads Rows(t)`left, Rows(t)`right, Rows(t)`parent, Rows(t)`isLeft, Rows(t)`hidden
    reads ContextRows(c)`left, ContextRows(c)`right, ContextRows(c)`parent, ContextRows(c)`isLeft, ContextRows(c)`hidden
    reads root`left, root`right, root`parent, root`isLeft
  {
    AllApart(c, t, root) && HoleLinked(c, t, root)
  }

  lemma {:induction false} OpenClose(c: Context, t: Tree, root: TableRow)
    ensures root !in Rows(Plug(c, t)) && Distinct(Plug(c, t)) && TreeLinked(Plug(c, t), root) <==> Opened(c, t, root)
    ensures Rows(Plug(c, t)) == ContextRows(c) + Rows(t)
    ensures SiblingRows(c) <= ContextRows(c)
  {
    PlugRows(c, t);
    PlugDistinct(c, t);
    PlugLinked(c, t, root);
    SiblingsInContext(c);
  }

  lemma {:induction false} LinkedChainUp(c: Context, root: TableRow, hole: TableRow?)
    requires ContextLinked(c, root, hole)
    ensures ChainUp(c, root)
  {
    if !c.Top? {
      LinkedChainUp(c.up, root, c.entry.row);
    }
  }

  lemma {:induction false} PlugExact(c: Context, t: Tree)
    ensures Exact(Plug(c, t)) ==> Exact(t) && SiblingsExact(c)
  {
    if !c.Top? {
      PlugExact(c.up, Fill(c, t));
    }
  }

  // Everything but the way up from the hole of c has its true counts.
  ghost predicate PathReady(c: Context, t: Tree, root: TableRow)
    reads ContextRows(c)`left, ContextRows(c)`right, ContextRows(c)`parent, ContextRows(c)`isLeft, ContextRows(c)`hidden
    reads root`left, root`right, root`parent, root`isLeft
    reads SiblingRows(c)`height, SiblingRows(c)`branchCount, Rows(t)`height, Rows(t)`branchCount
  {
    && root !in ContextRows(c) && root !in Rows(t)
    && ContextDistinct(c) && Distinct(t) && ContextRows(c) !! Rows(t)
    && ContextLinked(c, root, Ptr(t)) && Exact(t) && SiblingsExact(c)
  }

  lemma {:induction false} PathReadyInTree(c: Context, t: Tree, root: TableRow)
    requires root !in Rows(Plug(c, t)) && Distinct(Plug(c, t)) && TreeLinked(Plug(c, t), root)
    requires Exact(t) && SiblingsExact(c)
    ensures PathReady(c, t, root) && ChainUp(c, root)
    ensures root !in Spine(c) && Spine(c) <= Rows(Plug(c, t))
  {
    PlugRows(c, t);
    PlugDistinct(c, t);
    PlugLinked(c, t, root);
    LinkedChainUp(c, root, Ptr(t));
    SpineInContext(c);
  }

  lemma {:induction false} PathApart(c: Context, t: Tree, root: TableRow)
    requires PathReady(c, t, root)
    ensures var r := ParentOf(c, root);
            && r !in Rows(t) && r !in SiblingRows(c) && r.left != r && r.right != r
            && (r == root <==> c.Top?)
            && (c.Top? ==> r.left == null && r.right == Ptr(t))
  {
    SpineInContext(c);
    SpineApart(c);
    SiblingsInContext(c);
  }

  lemma {:induction false} TopExact(t: Tree, root: TableRow)
    requires PathReady(Top, t, root)
    ensures Exact(t) && StoredCount(Ptr(t)) == Count(t) && StoredCount(null) == 0
  {
  }

  // What Recount computes for the row above the hole is right if all below is.
  lemma {:induction false} PathStep(c: Context, t: Tree, root: TableRow)
    requires PathReady(c, t, root) && !c.Top?
    requires var r := c.entry.row;
             && r.branchCount == (if r.hidden then 0 else 1) + StoredCount(r.left) + StoredCount(r.right)
             && r.height == 1 + Max(StoredHeight(r.left), StoredHeight(r.right))
    ensures PathReady(c.up, Fill(c, t), root)
  {
    var r := c.entry.row;
    assert StoredCount(Ptr(t)) == Count(t) && StoredHeight(Ptr(t)) == Height(t);
    assert StoredCount(Ptr(c.sibling)) == Count(c.sibling) && StoredHeight(Ptr(c.sibling)) == Height(c.sibling);
    assert r.left == Ptr(Fill(c, t).left) && r.right == Ptr(Fill(c, t).right);
    assert Exact(Fill(c, t));
  }

  function StoredCount(r: TableRow?): nat
    reads if r == null then {} else {r}
  {
    if r == null then 0 else r.branchCount
  }

  function StoredHeight(r: TableRow?): nat
    reads if r == null then {} else {r}
  {
    if r == null then 0 else r.height
  }

  // ---------------------------------------------------------------------------
  // The five pieces of a rotation, in order: a, lo, b, up, d.

  ghost predicate PiecesApart(c: Context, a: Tree, lo: TableRow, b: Tree, up: TableRow, d: Tree, root: TableRow) {
    && lo != up && !lo.isRoot && !up.isRoot
    && {lo, up, root} !! Rows(a) && {lo, up, root} !! Rows(b) && {lo, up, root} !! Rows(d)
    && {lo, up, root} !! ContextRows(c) && lo != root && up != root
    && Rows(a) !! Rows(b) && Rows(a) !! Rows(d) && Rows(b) !! Rows(d)
    && ContextRows(c) !! Rows(a) && ContextRows(c) !! Rows(b) && ContextRows(c) !! Rows(d)
    && TopRow(b) !! InnerRows(b)
    && Distinct(a) && Distinct(b) && Distinct(d) && ContextDistinct(c)
  }

  // What a rotation leaves alone: the three subtrees (but for the place of the middle one)
  // and what is around the hole.
  ghost function RestRows(c: Context, a: Tree, b: Tree, d: Tree): set<TableRow> {
    Rows(a) + Rows(b) + Rows(d) + Above(c)
  }

  ghost function RestPlaced(c: Context, a: Tree, b: Tree, d: Tree): set<TableRow> {
    Rows(a) + InnerRows(b) + Rows(d) + Above(c)
  }

  ghost predicate Rest(c: Context, a: Tree, lo: TableRow, b: Tree, up: TableRow, d: Tree, root: TableRow)
    reads RestRows(c, a, b, d)`left, RestRows(c, a, b, d)`right, RestRows(c, a, b, d)`hidden
    reads RestPlaced(c, a, b, d)`parent, RestPlaced(c, a, b, d)`isLeft
    reads (if c.OnRight? then FrameRow(c) else {})`left, (if c.OnLeft? then FrameRow(c) else {})`right
    reads FrameRow(c)`parent, FrameRow(c)`isLeft, FrameRow(c)`hidden
    reads root`left, (if c.Top? then {} else {root})`right, root`parent, root`isLeft
  {
    && Linked(a) && Linked(b) && Linked(d) && Around(c, root)
    && HangsBelow(a, lo, true) && HangsBelow(d, up, false)
  }

  lemma {:induction false} RotationFrame(c: Context, a: Tree, lo: TableRow, b: Tree, up: TableRow, d: Tree,
      root: TableRow)
    requires PiecesApart(c, a, lo, b, up, d, root)
    ensures var p, q := ParentOf(c, root), RestRows(c, a, b, d);
            p !in q && lo !in q && up !in q && p != lo && p != up && lo != up && lo != root && up != root
    ensures RestPlaced(c, a, b, d) <= RestRows(c, a, b, d)
    ensures c.Top? <==> ParentOf(c, root) == root
    ensures lo !in FrameRow(c) && up !in FrameRow(c)
    ensures b.Node? ==> var m := b.entry.row;
            m !in RestPlaced(c, a, b, d) && m !in FrameRow(c) && m != lo && m != up && m != root
  {
    assert b.Node? ==> b.entry.row in Rows(b) && b.entry.row in TopRow(b);
  }

  // A rotation leaves the stored counts of the three subtrees and of the siblings further up right.
  ghost predicate PiecesExact(c: Context, a: Tree, b: Tree, d: Tree)
    reads SiblingRows(c)`height, SiblingRows(c)`branchCount
    reads Rows(a)`height, Rows(a)`branchCount, Rows(b)`height, Rows(b)`branchCount, Rows(d)`height, Rows(d)`branchCount
  {
    Exact(a) && Exact(b) && Exact(d) && SiblingsExact(c)
  }

  lemma {:induction false} UpperExact(c: Context, a: Tree, lo: Entry, b: Tree, up: Entry, d: Tree)
    requires Exact(Plug(c, Node(Node(a, lo, b), up, d)))
    ensures PiecesExact(c, a, b, d)
  {
    PlugExact(c, Node(Node(a, lo, b), up, d));
    assert Exact(Node(a, lo, b));
  }

  lemma {:induction false} LowerExact(c: Context, a: Tree, lo: Entry, b: Tree, up: Entry, d: Tree)
    requires Exact(Plug(c, Node(a, lo, Node(b, up, d))))
    ensures PiecesExact(c, a, b, d)
  {
    PlugExact(c, Node(a, lo, Node(b, up, d)));
    assert Exact(Node(b, up, d));
  }

  // The holes from which the two updates after a rotation start.
  lemma {:induction false} LowerHoles(c: Context, a: Tree, lo: Entry, b: Tree, up: Entry, d: Tree)
    ensures var k := OnRight(c, a, lo);
            && Plug(k, Node(b, up, d)) == Plug(c, Node(a, lo, Node(b, up, d)))
            && Plug(OnLeft(k, up, d), b) == Plug(c, Node(a, lo, Node(b, up, d)))
    ensures PiecesExact(c, a, b, d) ==> SiblingsExact(OnLeft(OnRight(c, a, lo), up, d))
    ensures Exact(Plug(c, Node(a, lo, Node(b, up, d)))) ==>
              Exact(Node(b, up, d)) && SiblingsExact(OnRight(c, a, lo))
  {
    var k := OnRight(c, a, lo);
    assert Fill(OnLeft(k, up, d), b) == Node(b, up, d);
    PlugExact(k, Node(b, up, d));
    assert SiblingsExact(OnLeft(k, up, d)) <==> Exact(d) && SiblingsExact(k);
  }

  lemma {:induction false} UpperHoles(c: Context, a: Tree, lo: Entry, b: Tree, up: Entry, d: Tree)
    ensures var k := OnLeft(c, up, d);
            && Plug(k, Node(a, lo, b)) == Plug(c, Node(Node(a, lo, b), up, d))
            && Plug(OnRight(k, a, lo), b) == Plug(c, Node(Node(a, lo, b), up, d))
    ensures PiecesExact(c, a, b, d) ==> SiblingsExact(OnRight(OnLeft(c, up, d), a, lo))
    ensures Exact(Plug(c, Node(Node(a, lo, b), up, d))) ==>
              Exact(Node(a, lo, b)) && SiblingsExact(OnLeft(c, up, d))
  {
    var k := OnLeft(c, up, d);
    assert Fill(OnRight(k, a, lo), b) == Node(a, lo, b);
    PlugExact(k, Node(a, lo, b));
    assert SiblingsExact(OnRight(k, a, lo)) <==> Exact(a) && SiblingsExact(k);
  }

  lemma {:induction false} UpperRows(a: Tree, lo: Entry, b: Tree, up: Entry, d: Tree)
    ensures var t := Node(Node(a, lo, b), up, d);
            lo.row in Rows(t) && up.row in Rows(t) && (b.Node? ==> b.entry.row in Rows(t))
  {
    assert Rows(Node(a, lo, b)) == Rows(a) + {lo.row} + Rows(b);
  }

  lemma {:induction false} LowerRows(a: Tree, lo: Entry, b: Tree, up: Entry, d: Tree)
    ensures var t := Node(a, lo, Node(b, up, d));
            lo.row in Rows(t) && up.row in Rows(t) && (b.Node? ==> b.entry.row in Rows(t))
  {
    assert Rows(Node(b, up, d)) == Rows(b) + {up.row} + Rows(d);
  }

  // Before RotateL, or after RotateR: `up` on top.
  ghost predicate UpperOnTop(c: Context, a: Tree, lo: Entry, b: Tree, up: Entry, d: Tree, root: TableRow)
    reads *
  {
    && up.row.left == lo.row && up.row.right == Ptr(d) && lo.row.left == Ptr(a) && lo.row.right == Ptr(b)
    && up.row.hidden == up.hidden && lo.row.hidden == lo.hidden
    && HangsBelow(a, lo.row, true) && HangsBelow(b, lo.row, false) && HangsBelow(d, up.row, false)
    && lo.row.parent == up.row && lo.row.isLeft
    && up.row.parent == ParentOf(c, root) && up.row.isLeft == c.OnLeft?
    && Linked(a) && Linked(b) && Linked(d) && ContextLinked(c, root, up.row)
  }

  // After RotateL, or before RotateR: `lo` on top.
  ghost predicate LowerOnTop(c: Context, a: Tree, lo: Entry, b: Tree, up: Entry, d: Tree, root: TableRow)
    reads *
  {
    && lo.row.right == up.row && lo.row.left == Ptr(a) && up.row.left == Ptr(b) && up.row.right == Ptr(d)
    && up.row.hidden == up.hidden && lo.row.hidden == lo.hidden
    && HangsBelow(a, lo.row, true) && HangsBelow(b, up.row, true) && HangsBelow(d, up.row, false)
    && up.row.parent == lo.row && !up.row.isLeft
    && lo.row.parent == ParentOf(c, root) && lo.row.isLeft == c.OnLeft?
    && Linked(a) && Linked(b) && Linked(d) && ContextLinked(c, root, lo.row)
  }

  lemma {:induction false} TakeUpper(c: Context, a: Tree, lo: Entry, b: Tree, up: Entry, d: Tree, root: TableRow)
    requires Opened(c, Node(Node(a, lo, b), up, d), root)
    ensures PiecesApart(c, a, lo.row, b, up.row, d, root) && Rest(c, a, lo.row, b, up.row, d, root)
    ensures up.row.left == lo.row && up.row.right == Ptr(d) && lo.row.left == Ptr(a) && lo.row.right == Ptr(b)
    ensures up.row.hidden == up.hidden && lo.row.hidden == lo.hidden
    ensures lo.row.parent == up.row && lo.row.isLeft
    ensures up.row.parent == ParentOf(c, root) && up.row.isLeft == c.OnLeft? && HoleOf(c, root) == up.row
  {
    OpenUpper(c, a, lo, b, up, d, root);
  }

  lemma {:induction false} MakeLower(c: Context, a: Tree, lo: Entry, b: Tree, up: Entry, d: Tree, root: TableRow)
    requires PiecesApart(c, a, lo.row, b, up.row, d, root) && Rest(c, a, lo.row, b, up.row, d, root)
    requires lo.row.right == up.row && lo.row.left == Ptr(a) && up.row.left == Ptr(b) && up.row.right == Ptr(d)
    requires up.row.hidden == up.hidden && lo.row.hidden == lo.hidden
    requires b.Node? ==> b.entry.row.parent == up.row && b.entry.row.isLeft
    requires up.row.parent == lo.row && !up.row.isLeft
    requires lo.row.parent == ParentOf(c, root) && lo.row.isLeft == c.OnLeft? && HoleOf(c, root) == lo.row
    ensures Opened(c, Node(a, lo, Node(b, up, d)), root)
  {
    OpenLower(c, a, lo, b, up, d, root);
  }

  lemma {:induction false} TakeLower(c: Context, a: Tree, lo: Entry, b: Tree, up: Entry, d: Tree, root: TableRow)
    requires Opened(c, Node(a, lo, Node(b, up, d)), root)
    ensures PiecesApart(c, a, lo.row, b, up.row, d, root) && Rest(c, a, lo.row, b, up.row, d, root)
    ensures lo.row.right == up.row && lo.row.left == Ptr(a) && up.row.left == Ptr(b) && up.row.right == Ptr(d)
    ensures up.row.hidden == up.hidden && lo.row.hidden == lo.hidden
    ensures up.row.parent == lo.row && !up.row.isLeft
    ensures lo.row.parent == ParentOf(c, root) && lo.row.isLeft == c.OnLeft? && HoleOf(c, root) == lo.row
  {
    OpenLower(c, a, lo, b, up, d, root);
  }

  lemma {:induction false} MakeUpper(c: Context, a: Tree, lo: Entry, b: Tree, up: Entry, d: Tree, root: TableRow)
    requires PiecesApart(c, a, lo.row, b, up.row, d, root) && Rest(c, a, lo.row, b, up.row, d, root)
    requires up.row.left == lo.row && up.row.right == Ptr(d) && lo.row.left == Ptr(a) && lo.row.right == Ptr(b)
    requires up.row.hidden == up.hidden && lo.row.hidden == lo.hidden
    requires b.Node? ==> b.entry.row.parent == lo.row && !b.entry.row.isLeft
    requires lo.row.parent == up.row && lo.row.isLeft
    requires up.row.parent == ParentOf(c, root) && up.row.isLeft == c.OnLeft? && HoleOf(c, root) == up.row
    ensures Opened(c, Node(Node(a, lo, b), up, d), root)
  {
    OpenUpper(c, a, lo, b, up, d, root);
  }

  lemma {:induction false} OpenUpper(c: Context, a: Tree, lo: Entry, b: Tree, up: Entry, d: Tree, root: TableRow)
    ensures Opened(c, Node(Node(a, lo, b), up, d), root)
            <==> PiecesApart(c, a, lo.row, b, up.row, d, root) && UpperOnTop(c, a, lo, b, up, d, root)
  {
    hide ContextLinked, ContextRows, ContextDistinct, Distinct, Rows, PiecesApart, AllApart;
    PiecesUpper(c, a, lo, b, up, d, root);
    var l := Node(a, lo, b);
    assert Linked(l) <==> lo.row.left == Ptr(a) && lo.row.right == Ptr(b) && lo.row.hidden == lo.hidden
                          && HangsBelow(a, lo.row, true) && HangsBelow(b, lo.row, false) && Linked(a) && Linked(b);
  }

  lemma {:induction false} OpenLower(c: Context, a: Tree, lo: Entry, b: Tree, up: Entry, d: Tree, root: TableRow)
    ensures Opened(c, Node(a, lo, Node(b, up, d)), root)
            <==> PiecesApart(c, a, lo.row, b, up.row, d, root) && LowerOnTop(c, a, lo, b, up, d, root)
  {
    hide ContextLinked, ContextRows, ContextDistinct, Distinct, Rows, PiecesApart, AllApart;
    PiecesLower(c, a, lo, b, up, d, root);
    var r := Node(b, up, d);
    assert Linked(r) <==> up.row.left == Ptr(b) && up.row.right == Ptr(d) && up.row.hidden == up.hidden
                          && HangsBelow(b, up.row, true) && HangsBelow(d, up.row, false) && Linked(b) && Linked(d);
  }

  ghost predicate AllApart(c: Context, t: Tree, root: TableRow) {
    && root !in ContextRows(c) && root !in Rows(t)
    && ContextDistinct(c) && Distinct(t) && ContextRows(c) !! Rows(t)
  }

  lemma {:induction false} NodeParts(l: Tree, e: Entry, r: Tree)
    ensures Rows(Node(l, e, r)) == Rows(l) + {e.row} + Rows(r)
    ensures Distinct(Node(l, e, r)) <==>
              && !e.row.isRoot && e.row !in Rows(l) && e.row !in Rows(r)
              && Rows(l) !! Rows(r) && Distinct(l) && Distinct(r)
    ensures Distinct(l) ==> TopRow(l) !! InnerRows(l)
    ensures Distinct(r) ==> TopRow(r) !! InnerRows(r)
  {
  }

  lemma {:induction false} PiecesUpper(c: Context, a: Tree, lo: Entry, b: Tree, up: Entry, d: Tree, root: TableRow)
    ensures AllApart(c, Node(Node(a, lo, b), up, d), root) <==> PiecesApart(c, a, lo.row, b, up.row, d, root)
  {
    hide Rows, ContextRows, Distinct, ContextDistinct, TopRow, InnerRows;
    NodeParts(a, lo, b);
    NodeParts(Node(a, lo, b), up, d);
  }

  lemma {:induction false} PiecesLower(c: Context, a: Tree, lo: Entry, b: Tree, up: Entry, d: Tree, root: TableRow)
    ensures AllApart(c, Node(a, lo, Node(b, up, d)), root) <==> PiecesApart(c, a, lo.row, b, up.row, d, root)
  {
    hide Rows, ContextRows, Distinct, ContextDistinct, TopRow, InnerRows;
    NodeParts(b, up, d);
    NodeParts(a, lo, Node(b, up, d));
  }

  // ---------------------------------------------------------------------------
  // Linking in a new row

  lemma {:induction false} OpenLeaf(c: Context, root: TableRow)
    requires Opened(c, Leaf, root)
    ensures Around(c, root) && HoleOf(c, root) == null && ContextDistinct(c) && root !in ContextRows(c)
    ensures ParentOf(c, root) !in Above(c) && FrameRow(c) + Above(c) == ContextRows(c)
    ensures c.Top? <==> ParentOf(c, root) == root
  {
  }

  lemma {:induction false} OpenNew(c: Context, e: Entry, root: TableRow)
    requires Around(c, root) && HoleOf(c, root) == e.row && ContextDistinct(c) && root !in ContextRows(c)
    requires e.row !in ContextRows(c) && e.row != root && !e.row.isRoot
    requires e.row.parent == ParentOf(c, root) && e.row.isLeft == c.OnLeft? && e.row.left == null && e.row.right == null
    requires e.row.hidden == e.hidden
    ensures Opened(c, Node(Leaf, e, Leaf), root)
  {
    assert Rows(Node(Leaf, e, Leaf)) == {e.row};
    assert Distinct(Node(Leaf, e, Leaf));
  }

  lemma {:induction false} NewHole(c: Context, e: Entry)
    requires Exact(Plug(c, Leaf))
    ensures SiblingsExact(OnLeft(c, e, Leaf)) && Exact(Leaf)
    ensures Plug(OnLeft(c, e, Leaf), Leaf) == Plug(c, Node(Leaf, e, Leaf))
    ensures Rows(Plug(c, Node(Leaf, e, Leaf))) == Rows(Plug(c, Leaf)) + {e.row}
    ensures SiblingRows(c) <= Rows(Plug(c, Leaf))
  {
    PlugExact(c, Leaf);
    PlugRows(c, Leaf);
    PlugRows(c, Node(Leaf, e, Leaf));
    SiblingsInContext(c);
    assert Rows(Node(Leaf, e, Leaf)) == {e.row};
  }

  // ---------------------------------------------------------------------------
  // Taking a row out

  // What stays put around a subtree whose top is rehung.
  ghost predicate Kept(c: Context, s: Tree, root: TableRow)
    reads Rows(s)`left, Rows(s)`right, Rows(s)`hidden, InnerRows(s)`parent, InnerRows(s)`isLeft
    reads (if c.OnRight? then FrameRow(c) else {})`left, (if c.OnLeft? then FrameRow(c) else {})`right
    reads FrameRow(c)`parent, FrameRow(c)`isLeft, FrameRow(c)`hidden
    reads Above(c)`left, Above(c)`right, Above(c)`parent, Above(c)`isLeft, Above(c)`hidden
    reads root`left, (if c.Top? then {} else {root})`right, root`parent, root`isLeft
  {
    AllApart(c, s, root) && Linked(s) && Around(c, root)
  }

  lemma {:induction false} TakeOnlyChild(c: Context, t: Tree, s: Tree, root: TableRow)
    requires Opened(c, t, root) && OnlyChild(t, s)
    ensures Kept(c, s, root) && HoleOf(c, root) == t.entry.row
    ensures t.entry.row.parent == ParentOf(c, root) && t.entry.row.isLeft == c.OnLeft?
    ensures t.entry.row.left == Ptr(t.left) && t.entry.row.right == Ptr(t.right)
    ensures Rows(t) == Rows(s) + {t.entry.row} && t.entry.row !in Rows(s)
    ensures t.entry.row !in ContextRows(c)
    ensures Placeable(c, s, root)
  {
    assert Distinct(s) && Linked(s);
  }

  // The row above the hole and the top of s are none of the rows that stay put.
  ghost predicate Placeable(c: Context, s: Tree, root: TableRow) {
    && ParentOf(c, root) !in Rows(s) && ParentOf(c, root) !in Above(c)
    && (c.Top? <==> ParentOf(c, root) == root)
    && InnerRows(s) <= Rows(s) && FrameRow(c) <= ContextRows(c) && Above(c) <= ContextRows(c)
    && root !in ContextRows(c)
    && (s.Node? ==> var m := s.entry.row;
          m in Rows(s) && m !in InnerRows(s) && m !in ContextRows(c) && m != root)
  }

  lemma {:induction false} PlaceSubtree(c: Context, s: Tree, root: TableRow)
    requires Kept(c, s, root) && HoleOf(c, root) == Ptr(s)
    requires HangsBelow(s, ParentOf(c, root), c.OnLeft?)
    ensures Opened(c, s, root)
  {
  }

  // What stays put when the top row of Node(l, e, r) is exchanged for another.
  ghost function PairRows(c: Context, l: Tree, r: Tree): set<TableRow> { Rows(l) + Rows(r) + Above(c) }

  ghost function PairInner(c: Context, l: Tree, r: Tree): set<TableRow> { InnerRows(l) + InnerRows(r) + Above(c) }

  ghost predicate PairApart(c: Context, l: Tree, r: Tree, root: TableRow) {
    && Distinct(l) && Distinct(r) && Rows(l) !! Rows(r) && ContextRows(c) !! Rows(l) && ContextRows(c) !! Rows(r)
    && root !in Rows(l) && root !in Rows(r) && root !in ContextRows(c) && ContextDistinct(c)
  }

  ghost predicate KeptPair(c: Context, l: Tree, r: Tree, root: TableRow)
    reads PairRows(c, l, r)`left, PairRows(c, l, r)`right, PairRows(c, l, r)`hidden, PairRows(c, l, r)`isLeft
    reads PairInner(c, l, r)`parent
    reads (if c.OnRight? then FrameRow(c) else {})`left, (if c.OnLeft? then FrameRow(c) else {})`right
    reads FrameRow(c)`parent, FrameRow(c)`isLeft, FrameRow(c)`hidden
    reads root`left, (if c.Top? then {} else {root})`right, root`parent, root`isLeft
  {
    && Linked(l) && Linked(r) && Around(c, root)
    && (l.Node? ==> l.entry.row.isLeft) && (r.Node? ==> !r.entry.row.isLeft)
  }

  lemma {:induction false} TakePair(c: Context, l: Tree, e: Entry, r: Tree, pred: TableRow, root: TableRow)
    requires Opened(c, Node(l, e, r), root)
    requires pred !in Rows(Node(l, e, r)) && pred !in ContextRows(c)
    ensures KeptPair(c, l, r, root) && PairApart(c, l, r, root) && HoleOf(c, root) == e.row
    ensures e.row.left == Ptr(l) && e.row.right == Ptr(r)
    ensures e.row.parent == ParentOf(c, root) && e.row.isLeft == c.OnLeft?
    ensures var p, q := ParentOf(c, root), PairRows(c, l, r);
            p !in q && pred !in q && pred !in FrameRow(c) && (c.Top? <==> p == root)
    ensures PairInner(c, l, r) <= PairRows(c, l, r)
    ensures l.Node? ==> var m := l.entry.row; m !in PairInner(c, l, r) && m !in FrameRow(c) && m != root
    ensures r.Node? ==> var m := r.entry.row; m !in PairInner(c, l, r) && m !in FrameRow(c) && m != root
    ensures l.Node? && r.Node? ==> l.entry.row != r.entry.row
    ensures pred !in Rows(l) && pred !in Rows(r)
  {
    assert Rows(Node(l, e, r)) == Rows(l) + {e.row} + Rows(r);
    assert Distinct(l) && Distinct(r);
  }

  lemma {:induction false} PlacePair(c: Context, l: Tree, e: Entry, r: Tree, root: TableRow)
    requires KeptPair(c, l, r, root) && PairApart(c, l, r, root) && HoleOf(c, root) == e.row
    requires e.row !in Rows(l) && e.row !in Rows(r) && e.row !in ContextRows(c) && e.row != root && !e.row.isRoot
    requires e.row.left == Ptr(l) && e.row.right == Ptr(r) && e.row.hidden == e.hidden
    requires e.row.parent == ParentOf(c, root) && e.row.isLeft == c.OnLeft?
    requires (l.Node? ==> l.entry.row.parent == e.row) && (r.Node? ==> r.entry.row.parent == e.row)
    ensures Opened(c, Node(l, e, r), root)
  {
  }

  lemma {:induction false} StackSiblingsExact(c: Context, d: Context)
    ensures SiblingsExact(Stack(c, d)) <==> SiblingsExact(c) && SiblingsExact(d)
    ensures !c.Top? ==> Stack(c, d).entry == c.entry && !Stack(c, d).Top?
  {
    if !c.Top? {
      StackSiblingsExact(c.up, d);
      assert Stack(c, d).up == Stack(c.up, d) && Stack(c, d).sibling == c.sibling;
    }
  }

  lemma {:induction false} NodeApart(c: Context, l: Tree, e: Entry, r: Tree, root: TableRow)
    requires Opened(c, Node(l, e, r), root)
    ensures e.row !in PairRows(c, l, r) && e.row !in FrameRow(c) && e.row !in ContextRows(c)
    ensures e.row !in Rows(l) && e.row !in Rows(r) && e.row != root && !e.row.isRoot
    ensures root !in Rows(Node(l, e, r)) && root !in ContextRows(c)
  {
    assert Rows(Node(l, e, r)) == Rows(l) + {e.row} + Rows(r);
  }
}
