// ECKeyTable: a sorted table kept as a pointer-linked AVL tree under a sentinel, with an id map, a cursor
// and bookmarks beside it.
module KeyTables {
  import opened RowOrder
  import opened TableTree
  import opened TableDeletes
  import opened TableHeap
  import TableSpec

  // The ECRESULT codes the table returns.
  datatype Status = Success | PositionChanged | NotFound | InvalidBookmark | InvalidParameter | UnableToComplete

  datatype UpdateType = RowAdd | RowDelete | RowModify | OtherUpdate

  const BOOKMARK_LIMIT := 100

  const SEEK_SET := 0
  const SEEK_CUR := 1
  const SEEK_END := 2

  function Clamp(x: int, n: nat): nat { if x < 0 then 0 else if x >= n then n else x }

  datatype Bookmark = Bookmark(firstRowPosition: int, position: TableRow?)

  // The id map holds exactly these rows, by key.
  ghost predicate Mapped(rows: map<Key, TableRow>, all: set<TableRow>) {
    && (forall k :: k in rows ==> rows[k] in all && rows[k].key == k)
    && (forall r :: r in all ==> r.key in rows && rows[r.key] == r)
  }

  // Every bookmark is null, the sentinel or a row of the table; ids are above the fixed ones and
  // below the next to be given out.
  ghost predicate BookmarksLive(bookmarks: map<nat, Bookmark>, next: nat, all: set<TableRow>) {
    && |bookmarks| <= BOOKMARK_LIMIT && SEEK_END < next
    && forall b :: b in bookmarks ==>
         (bookmarks[b].position == null || bookmarks[b].position in all) && SEEK_END < b < next
  }

  ghost function WithoutRow(bookmarks: map<nat, Bookmark>, row: TableRow): map<nat, Bookmark> {
    map b | b in bookmarks && bookmarks[b].position != row :: bookmarks[b]
  }

  // Exactly the bookmarks on the row are no longer there.
  lemma {:induction false} WithoutRowExactly(bookmarks: map<nat, Bookmark>, row: TableRow, b: nat)
    ensures var rest := WithoutRow(bookmarks, row);
            && (b in rest <==> b in bookmarks && bookmarks[b].position != row)
            && (b in rest ==> rest[b] == bookmarks[b])
  {
  }

  lemma {:induction false} MappedWithout(rows: map<Key, TableRow>, all: set<TableRow>, key: Key)
    requires Mapped(rows, all) && key in rows
    ensures Mapped(rows - {key}, all - {rows[key]})
    ensures rows[key] in all && rows[key].key == key && forall x :: x in all && x.key == key ==> x == rows[key]
  {
  }

  lemma {:induction false} MappedWith(rows: map<Key, TableRow>, all: set<TableRow>, row: TableRow)
    requires Mapped(rows, all) && row.key !in rows
    ensures Mapped(rows[row.key := row], all + {row})
  {
  }

  // A map that differs at one key only brings in the row of that key.
  lemma {:induction false} RowsOfMap(rows0: map<Key, TableRow>, all0: set<TableRow>, rows1: map<Key, TableRow>,
      all1: set<TableRow>, key: Key)
    requires Mapped(rows0, all0) && Mapped(rows1, all1)
    requires forall k :: k in rows1 && k != key ==> k in rows0 && rows0[k] == rows1[k]
    ensures forall r :: r in all1 ==> r in all0 || (key in rows1 && r == rows1[key])
  {
  }

  lemma {:induction false} BookmarksWithout(bookmarks: map<nat, Bookmark>, next: nat, all: set<TableRow>, row: TableRow)
    requires BookmarksLive(bookmarks, next, all)
    requires |WithoutRow(bookmarks, row)| <= |bookmarks|
    ensures BookmarksLive(WithoutRow(bookmarks, row), next, all - {row})
  {
  }

  lemma {:induction false} BookmarksMore(bookmarks: map<nat, Bookmark>, next: nat, some: set<TableRow>,
      all: set<TableRow>)
    requires BookmarksLive(bookmarks, next, some) && some <= all
    ensures BookmarksLive(bookmarks, next, all)
  {
  }

  function Meaning(update: UpdateType, key: Key, cols: Cols, hidden: bool): TableSpec.Update {
    match update
    case RowDelete => TableSpec.Delete(key)
    case RowAdd | RowModify => TableSpec.Put(TableSpec.Row(key, cols, hidden))
    case OtherUpdate => TableSpec.Nothing
  }

  class KeyTable {
    const collate: Collator
    const root: TableRow
    var current: TableRow?
    var rows: map<Key, TableRow>
    var bookmarks: map<nat, Bookmark>
    var bookmarkPosition: nat
    ghost var tree: Tree

    // The row objects form the tree.
    ghost predicate Shape()
      reads this`tree, root`left, root`right, root`parent, root`isLeft
      reads Rows(tree)`left, Rows(tree)`right, Rows(tree)`parent, Rows(tree)`isLeft, Rows(tree)`hidden
    {
      root.isRoot && root !in Rows(tree) && Distinct(tree) && TreeLinked(tree, root)
    }

    ghost predicate Counted()
      reads this`tree, root`branchCount, Rows(tree)`height, Rows(tree)`branchCount
    {
      Exact(tree) && root.branchCount == Count(tree)
    }

    constructor (collate: Collator)
      ensures this.collate == collate && Valid() && Order() == [] && rows == map[] && current == root
                && bookmarks == map[]
    {
      this.collate := collate;
      root := new TableRow(NO_KEY, [], false, true);
      current := root;
      rows := map[];
      bookmarks := map[];
      bookmarkPosition := 3;
      tree := Leaf;
    }

    // One row's height and visible count, from those of its children.
    method Recount(r: TableRow)
      modifies r`height, r`branchCount
      ensures r.left != r && r.right != r ==>
                && r.branchCount
                   == (if r == root || r.hidden then 0 else 1) + StoredCount(r.left) + StoredCount(r.right)
                && r.height == (if r == root then 0 else 1) + Max(StoredHeight(r.left), StoredHeight(r.right))
    {
      if r == root {
        r.height, r.branchCount := 0, 0;
      } else if r.hidden {
        r.height, r.branchCount := 1, 0;
      } else {
        r.height, r.branchCount := 1, 1;
      }
      if r.left != null {
        r.branchCount := r.branchCount + r.left.branchCount;
      }
      if r.right != null {
        r.branchCount := r.branchCount + r.right.branchCount;
      }
      var h := 0;
      if r.left != null {
        h := r.left.height;
      }
      if r.right != null {
        h := if r.right.height < h then h else r.right.height;
      }
      r.height := r.height + h;
    }

    ghost function ChildrenCount(r: TableRow): nat
      reads r, if r.left == null then {} else {r.left}, if r.right == null then {} else {r.right}
    {
      (if r == root || r.hidden then 0 else 1) + StoredCount(r.left) + StoredCount(r.right)
    }

    // The row is not met again on the way up from it, nor are its children.
    ghost predicate CutLoose(r: TableRow, c: Context)
      reads r
    {
      && !c.Top? && r !in Spine(c.up) && r.left != r && r.right != r
      && r.left !in Spine(c) && r.right !in Spine(c) && r.left != root && r.right != root
    }

    // Propagate counts and heights from `row` (the row above the hole of c) up to the sentinel.
    // With everything but the way up in order, all counts are right afterwards.  A row that has
    // just been cut loose is not `linked`; then only its parent chain matters.
    method UpdateCounts(row: TableRow, ghost c: Context, ghost t: Tree, ghost linked: bool)
      requires row == ParentOf(c, root) && root.parent == null && root !in Spine(c) && ChainUp(c, root)
      requires linked ==> PathReady(c, t, root)
      modifies Spine(c)`height, Spine(c)`branchCount, root`height, root`branchCount
      ensures linked ==> Exact(Plug(c, t)) && root.branchCount == Count(Plug(c, t))
      ensures old(CutLoose(row, c)) ==> row.branchCount == old(ChildrenCount(row))
    {
      hide PathReady, Rows, ContextRows, SiblingRows, StoredCount, StoredHeight, Exact;
      var r: TableRow? := row;
      ghost var k, s, loose, first := c, t, CutLoose(row, c), true;
      while r != null
        invariant Spine(k) <= Spine(c) && ChainUp(k, root)
        invariant loose ==> if first then k == c && r == row && ChildrenCount(row) == old(ChildrenCount(row))
                            else Spine(k) <= Spine(c.up) && row.branchCount == old(ChildrenCount(row))
        invariant r != null ==> r == ParentOf(k, root)
        invariant r != null && linked ==> PathReady(k, s, root) && Plug(k, s) == Plug(c, t)
        invariant r == null && linked ==> Exact(Plug(c, t)) && root.branchCount == Count(Plug(c, t))
        decreases if r == null then 0 else 1 + Depth(k)
      {
        assert allocated(Rows(s)) && allocated(ContextRows(k)) && allocated(Spine(k)) && allocated(SiblingRows(k));
        if linked {
          PathApart(k, s, root);
        }
        Recount(r);
        if r != root {
          if linked {
            PathStep(k, s, root);
          }
          s, k := Fill(k, s), k.up;
        } else if linked {
          TopExact(s, root);
        }
        first := false;
        r := r.parent;
      }
    }

    // UpdateCounts inside the tree: the rows below the hole and beside the way up are counted.
    method UpdateCountsInTree(row: TableRow, ghost c: Context, ghost t: Tree)
      requires Shape() && tree == Plug(c, t) && row == ParentOf(c, root)
      requires Exact(t) && SiblingsExact(c)
      modifies Rows(tree)`height, Rows(tree)`branchCount, root`height, root`branchCount
      ensures Shape() && Counted()
    {
      PathReadyInTree(c, t, root);
      assert allocated(Rows(tree));
      hide *;
      UpdateCounts(row, c, t, true);
    }

    // The left child of the pivot comes up; the pivot becomes its right child.
    method RotateL(pivot: TableRow, ghost c: Context, ghost t: Tree)
      requires Shape() && Counted() && tree == Plug(c, t)
      requires t.Node? && t.left.Node? && t.entry.row == pivot
      modifies this`tree, root`left, root`right, root`height, root`branchCount
      modifies Rows(tree)`left, Rows(tree)`right, Rows(tree)`parent, Rows(tree)`isLeft, Rows(tree)`height,
          Rows(tree)`branchCount
      ensures Shape() && Counted() && tree == Plug(c, RotatedL(t)) && Rows(tree) == old(Rows(tree))
    {
      hide Linked, Around, Rows, ContextRows, SiblingRows, Spine, Opened, Exact, SiblingsExact, Plug, Distinct,
           TreeLinked, Count, RotatedL;
      ghost var a, b, d := t.left.left, t.left.right, t.right;
      ghost var lo, up := t.left.entry, t.entry;
      OpenClose(c, t, root);
      UpperExact(c, a, lo, b, up, d);
      assert allocated(Rows(a)) && allocated(Rows(b)) && allocated(Rows(d)) && allocated(SiblingRows(c));
      RotateLinksL(pivot, c, t);
      tree := Plug(c, RotatedL(t));
      OpenClose(c, RotatedL(t), root);
      RotatedPieces(a, lo, b, up, d);
      LowerHoles(c, a, lo, b, up, d);
      var left: TableRow := pivot.parent;
      UpdateCountsInTree(pivot, OnLeft(OnRight(c, a, lo), up, d), b);
      LowerHoles(c, a, lo, b, up, d);
      UpdateCountsInTree(left, OnRight(c, a, lo), Node(b, up, d));
    }

    method RotateLinksL(pivot: TableRow, ghost c: Context, ghost t: Tree)
      requires Opened(c, t, root)
      requires t.Node? && t.left.Node? && t.entry.row == pivot
      modifies root`left, root`right, ContextRows(c)`left, ContextRows(c)`right
      modifies Rows(t)`left, Rows(t)`right, Rows(t)`parent, Rows(t)`isLeft
      ensures Opened(c, RotatedL(t), root) && pivot.parent == t.left.entry.row
    {
      hide Rest, Rows, ContextRows, Opened, PiecesApart, RestRows, RestPlaced;
      ghost var a, b, d := t.left.left, t.left.right, t.right;
      ghost var lo, up := t.left.entry, t.entry;
      TakeUpper(c, a, lo, b, up, d, root);
      RotationFrame(c, a, lo.row, b, up.row, d, root);
      UpperRows(a, lo, b, up, d);
      var left: TableRow := pivot.left;
      RaiseChild(pivot, left, c, a, lo.row, b, up.row, d);
      pivot.left := left.right;
      if left.right != null {
        left.right.isLeft := true;
        left.right.parent := pivot;
      }
      left.right := pivot;
      pivot.parent := left;
      pivot.isLeft := false;
      MakeLower(c, a, lo, b, up, d, root);
    }

    // A child of the pivot takes the place of the pivot below its parent.
    method RaiseChild(pivot: TableRow, child: TableRow, ghost c: Context, ghost a: Tree, ghost lo: TableRow,
        ghost b: Tree, ghost up: TableRow, ghost d: Tree)
      requires PiecesApart(c, a, lo, b, up, d, root) && Rest(c, a, lo, b, up, d, root)
      requires (pivot == up && child == lo) || (pivot == lo && child == up)
      requires pivot.parent == ParentOf(c, root) && pivot.isLeft == c.OnLeft?
      modifies ParentOf(c, root)`left, ParentOf(c, root)`right, child`parent, child`isLeft
      ensures Rest(c, a, lo, b, up, d, root) && HoleOf(c, root) == child
      ensures child.parent == ParentOf(c, root) && child.isLeft == c.OnLeft?
    {
      hide Rest, Rows, ContextRows, PiecesApart, RestRows, RestPlaced;
      RotationFrame(c, a, lo, b, up, d, root);
      child.parent := pivot.parent;
      child.isLeft := pivot.isLeft;
      if pivot.isLeft {
        pivot.parent.left := child;
      } else {
        pivot.parent.right := child;
      }
    }

    // The right child of the pivot comes up; the pivot becomes its left child.
    method RotateR(pivot: TableRow, ghost c: Context, ghost t: Tree)
      requires Shape() && Counted() && tree == Plug(c, t)
      requires t.Node? && t.right.Node? && t.entry.row == pivot
      modifies this`tree, root`left, root`right, root`height, root`branchCount
      modifies Rows(tree)`left, Rows(tree)`right, Rows(tree)`parent, Rows(tree)`isLeft, Rows(tree)`height,
          Rows(tree)`branchCount
      ensures Shape() && Counted() && tree == Plug(c, RotatedR(t)) && Rows(tree) == old(Rows(tree))
    {
      hide Linked, Around, Rows, ContextRows, SiblingRows, Spine, Opened, Exact, SiblingsExact, Plug, Distinct,
           TreeLinked, Count, RotatedR;
      ghost var a, b, d := t.left, t.right.left, t.right.right;
      ghost var lo, up := t.entry, t.right.entry;
      OpenClose(c, t, root);
      LowerExact(c, a, lo, b, up, d);
      assert allocated(Rows(a)) && allocated(Rows(b)) && allocated(Rows(d)) && allocated(SiblingRows(c));
      RotateLinksR(pivot, c, t);
      tree := Plug(c, RotatedR(t));
      OpenClose(c, RotatedR(t), root);
      RotatedPieces(a, lo, b, up, d);
      UpperHoles(c, a, lo, b, up, d);
      var right: TableRow := pivot.parent;
      UpdateCountsInTree(pivot, OnRight(OnLeft(c, up, d), a, lo), b);
      UpperHoles(c, a, lo, b, up, d);
      UpdateCountsInTree(right, OnLeft(c, up, d), Node(a, lo, b));
    }

    method RotateLinksR(pivot: TableRow, ghost c: Context, ghost t: Tree)
      requires Opened(c, t, root)
      requires t.Node? && t.right.Node? && t.entry.row == pivot
      modifies root`left, root`right, ContextRows(c)`left, ContextRows(c)`right
      modifies Rows(t)`left, Rows(t)`right, Rows(t)`parent, Rows(t)`isLeft
      ensures Opened(c, RotatedR(t), root) && pivot.parent == t.right.entry.row
    {
      hide Rest, Rows, ContextRows, Opened, PiecesApart, RestRows, RestPlaced;
      ghost var a, b, d := t.left, t.right.left, t.right.right;
      ghost var lo, up := t.entry, t.right.entry;
      TakeLower(c, a, lo, b, up, d, root);
      RotationFrame(c, a, lo.row, b, up.row, d, root);
      LowerRows(a, lo, b, up, d);
      var right: TableRow := pivot.right;
      RaiseChild(pivot, right, c, a, lo.row, b, up.row, d);
      pivot.right := right.left;
      if right.left != null {
        right.left.isLeft := false;
        right.left.parent := pivot;
      }
      right.left := pivot;
      pivot.parent := right;
      pivot.isLeft := true;
      MakeUpper(c, a, lo, b, up, d, root);
    }

    method RotateLR(pivot: TableRow, ghost c: Context, ghost t: Tree)
      requires Shape() && Counted() && tree == Plug(c, t)
      requires t.Node? && t.left.Node? && t.left.right.Node? && t.left.entry.row == pivot
      modifies this`tree, root`left, root`right, root`height, root`branchCount
      modifies Rows(tree)`left, Rows(tree)`right, Rows(tree)`parent, Rows(tree)`isLeft, Rows(tree)`height,
          Rows(tree)`branchCount
      ensures Shape() && Counted() && tree == Plug(c, RotatedL(Node(RotatedR(t.left), t.entry, t.right)))
      ensures Rows(tree) == old(Rows(tree))
    {
      ChildParents(c, t);
      hide Linked, Around, Exact, Distinct, TreeLinked, Count, Rows;
      var parent: TableRow := pivot.parent;
      RotateR(pivot, OnLeft(c, t.entry, t.right), t.left);
      RotateL(parent, c, Node(RotatedR(t.left), t.entry, t.right));
    }

    method RotateRL(pivot: TableRow, ghost c: Context, ghost t: Tree)
      requires Shape() && Counted() && tree == Plug(c, t)
      requires t.Node? && t.right.Node? && t.right.left.Node? && t.right.entry.row == pivot
      modifies this`tree, root`left, root`right, root`height, root`branchCount
      modifies Rows(tree)`left, Rows(tree)`right, Rows(tree)`parent, Rows(tree)`isLeft, Rows(tree)`height,
          Rows(tree)`branchCount
      ensures Shape() && Counted() && tree == Plug(c, RotatedR(Node(t.left, t.entry, RotatedL(t.right))))
      ensures Rows(tree) == old(Rows(tree))
    {
      ChildParents(c, t);
      hide Linked, Around, Exact, Distinct, TreeLinked, Count, Rows;
      var parent: TableRow := pivot.parent;
      RotateL(pivot, OnRight(c, t.left, t.entry), t.right);
      RotateR(parent, c, Node(t.left, t.entry, RotatedL(t.right)));
    }

    // The pointers at the top of a subtree.
    lemma {:induction false} ChildLinks(c: Context, t: Tree)
      requires Shape() && tree == Plug(c, t) && t.Node?
      ensures var r := t.entry.row;
              && r.left == Ptr(t.left) && r.right == Ptr(t.right) && r in Rows(tree)
              && r.parent == ParentOf(c, root) && r.isLeft == c.OnLeft? && r.hidden == t.entry.hidden && r != root
              && HangsBelow(t.left, r, true) && HangsBelow(t.right, r, false)
      ensures c.Top? <==> ParentOf(c, root) == root
      ensures Plug(OnLeft(c, t.entry, t.right), t.left) == tree && Plug(OnRight(c, t.left, t.entry), t.right) == tree
      ensures !c.Top? ==> Plug(c.up, Fill(c, t)) == tree
    {
      PlugRows(c, t);
      PlugLinked(c, t, root);
    }

    // The pointers and stored data at the top of a subtree.
    lemma {:induction false} ChildParents(c: Context, t: Tree)
      requires Shape() && Counted() && tree == Plug(c, t) && t.Node?
      ensures var r := t.entry.row;
              && r.left == Ptr(t.left) && r.right == Ptr(t.right) && r in Rows(tree)
              && r.parent == ParentOf(c, root) && r.isLeft == c.OnLeft? && r.hidden == t.entry.hidden && r != root
              && HangsBelow(t.left, r, true) && HangsBelow(t.right, r, false)
      ensures var r := t.entry.row;
              && StoredHeight(r.left) == Height(t.left) && StoredHeight(r.right) == Height(t.right)
              && StoredCount(r.left) == Count(t.left) && StoredCount(r.right) == Count(t.right)
              && r.branchCount == Count(t)
      ensures c.Top? <==> ParentOf(c, root) == root
      ensures Plug(OnLeft(c, t.entry, t.right), t.left) == tree && Plug(OnRight(c, t.left, t.entry), t.right) == tree
      ensures !c.Top? ==> Plug(c.up, Fill(c, t)) == tree
    {
      ChildLinks(c, t);
      PlugExact(c, t);
    }

    method GetBalance(pivot: TableRow?) returns (balance: int)
      ensures balance == if pivot == null then 0 else StoredHeight(pivot.left) - StoredHeight(pivot.right)
    {
      balance := 0;
      if pivot == null {
        return 0;
      }
      if pivot.left != null {
        balance := balance + pivot.left.height;
      }
      if pivot.right != null {
        balance := balance - pivot.right.height;
      }
    }

    method Restructure(pivot: TableRow, ghost c: Context, ghost t: Tree)
      requires Shape() && Counted() && tree == Plug(c, t) && t.Node? && t.entry.row == pivot
      modifies this`tree, root`left, root`right, root`height, root`branchCount
      modifies Rows(tree)`left, Rows(tree)`right, Rows(tree)`parent, Rows(tree)`isLeft, Rows(tree)`height,
          Rows(tree)`branchCount
      ensures Shape() && Counted() && tree == Plug(c, Restructured(t)) && Rows(tree) == old(Rows(tree))
    {
      hide Linked, Around, Exact, Distinct, TreeLinked, Count, Height, Rows, RotatedL, RotatedR, Shape, Counted,
           Plug, HangsBelow, StoredCount, ContextRows;
      ChildParents(c, t);
      if t.left.Node? {
        ChildParents(OnLeft(c, t.entry, t.right), t.left);
      }
      if t.right.Node? {
        ChildParents(OnRight(c, t.left, t.entry), t.right);
      }
      if Balance(t) < -1 || Balance(t) > 1 {
        PivotGoesDown(t);
      }
      assert allocated(Rows(tree));
      var balance := GetBalance(pivot);
      if balance > 1 {
        balance := GetBalance(pivot.left);
        if balance >= 0 {
          RotateL(pivot, c, t);
        } else {
          RotateLR(pivot.left, c, t);
        }
      } else if balance < -1 {
        balance := GetBalance(pivot.right);
        if balance <= 0 {
          RotateR(pivot, c, t);
        } else {
          RotateRL(pivot.right, c, t);
        }
      }
    }

    // Restructure from `row` up.  If the pass can repair the tree it does; if there is nothing
    // to repair on the way it leaves the tree alone.
    method RestructureRecursive(row: TableRow, ghost c: Context, ghost t: Tree, ghost repairs: bool)
      requires Shape() && Counted()
      requires row != root ==> tree == Plug(c, t) && t.Node? && t.entry.row == row
      requires row != root ==> if repairs then PassRepairs(c, t) else PathBalanced(c, t)
      modifies this`tree, root`left, root`right, root`height, root`branchCount
      modifies Rows(tree)`left, Rows(tree)`right, Rows(tree)`parent, Rows(tree)`isLeft, Rows(tree)`height,
          Rows(tree)`branchCount
      ensures Shape() && Counted() && Rows(tree) == old(Rows(tree)) && InOrder(tree) == old(InOrder(tree))
      ensures row != root ==> tree == Walked(c, t) && (repairs ==> Avl(tree))
      ensures row == root || !repairs ==> tree == old(tree)
    {
      hide Linked, Around, Exact, Distinct, TreeLinked, Count, Height, Rows, InOrder, Avl, Restructured, Shape,
           Counted, Repairable, ContextAvl, PassRepairs, Walked;
      var r := row;
      ghost var k, s := c, t;
      while r != root
        invariant Shape() && Counted() && Rows(tree) == old(Rows(tree)) && InOrder(tree) == old(InOrder(tree))
        invariant r != root ==> tree == Plug(k, s) && s.Node? && s.entry.row == r
        invariant r != root ==> if repairs then PassRepairs(k, s) else PathBalanced(k, s)
        invariant r != root ==> Walked(k, s) == Walked(c, t)
        invariant r == root && row != root ==> tree == Walked(c, t) && (repairs ==> Avl(tree))
        invariant row == root || !repairs ==> tree == old(tree)
        decreases if r == root then 0 else 1 + Depth(k), if r != root && -1 <= Balance(s) <= 1 then 0 else 1
      {
        assert allocated(Rows(tree));
        ghost var u := Restructured(s);
        RestructureStep(k, s, repairs);
        WalkedStep(k, s);
        Restructure(r, k, s);
        ChildParents(k, u);
        assert k.Top? ==> tree == u;
        if u != s {
          s := u;
        } else if !k.Top? {
          s, k := Fill(k, u), k.up;
        }
        r := r.parent;
      }
    }

    // -------------------------------------------------------------------------
    // Walking

    ghost function Order(): seq<Entry>
      reads this`tree
    {
      InOrder(tree)
    }

    // Null (past the end), the sentinel (before the first row) or a row of the table.
    ghost predicate Live(r: TableRow?)
      reads this`tree
    {
      r == null || r == root || r in Rows(tree)
    }

    lemma {:induction false} RootPosition()
      requires Shape()
      ensures Position(Order(), root) == -1 && root.right == Ptr(tree) && root.left == null && root.parent == null
                && !root.isLeft
      ensures root.right != null ==> root.right.parent == root && !root.right.isLeft
    {
      RowsInOrder(tree);
    }

    lemma {:induction false} PositionHere(c: Context, t: Tree)
      requires Shape() && tree == Plug(c, t) && t.Node?
      ensures HasRow(Order(), t.entry.row)
      ensures Position(Order(), t.entry.row) == |Before(c)| + |InOrder(t.left)| < |Order()|
      ensures Order()[|Before(c)| + |InOrder(t.left)|] == t.entry
      ensures Rank(Order(), t.entry.row) == Visible(Before(c)) + Count(t.left)
      ensures |InOrder(t)| == |InOrder(t.left)| + 1 + |InOrder(t.right)|
    {
      PlugPosition(c, t);
    }

    // The cursor moves one row on, hidden rows included; past the end it stays.
    method Next()
      requires Shape() && Live(current)
      modifies this`current
      ensures Shape() && Live(current)
      ensures Position(Order(), current) == Min(old(Position(Order(), current)) + 1, |Order()|)
    {
      hide Linked, Around, TreeLinked, Distinct, Rows, Shape, InOrder, Rank;
      assert allocated(Rows(tree));
      if current == null {
        return;
      }
      ghost var target := Position(Order(), current) + 1;
      ghost var k, s := Top, tree;
      RootPosition();
      if current != root {
        k, s := Focus(tree, current);
        ChildLinks(k, s);
        PositionHere(k, s);
      }
      if current.right != null {
        if current != root {
          BeforeRight(k, s.left, s.entry);
          k, s := OnRight(k, s.left, s.entry), s.right;
        }
        current := current.right;
        Leftmost(k, s);
        return;
      }
      EmptySize();
      UpToTheRight(k, s, target);
    }

    // Leave the subtree s, all of whose rows lie before `target`, upwards to the row at `target`.
    method UpToTheRight(ghost c: Context, ghost t: Tree, ghost target: int)
      requires Shape() && Live(current) && current != null
      requires current == root ==> target == |Order()|
      requires current != root ==>
                 tree == Plug(c, t) && t.Node? && t.entry.row == current && |Before(c)| + |InOrder(t)| == target
      modifies this`current
      ensures Shape() && Live(current) && Position(Order(), current) == target
    {
      hide Linked, Around, TreeLinked, Distinct, Rows, Shape, InOrder, Rank;
      assert allocated(Rows(tree));
      ghost var k, s := c, t;
      EmptySize();
      while current != null && !current.isLeft
        invariant Shape() && Live(current)
        invariant current == null || current == root ==> target == |Order()|
        invariant current != null && current != root ==>
                    tree == Plug(k, s) && s.Node? && s.entry.row == current && |Before(k)| + |InOrder(s)| == target
        decreases if current == null then 0 else if current == root then 1 else 2 + Depth(k)
      {
        if current == root {
          RootPosition();
        } else {
          ChildLinks(k, s);
          PlugCount(k, s);
          if !k.Top? {
            ChildLinks(k.up, Fill(k, s));
            PositionHere(k.up, Fill(k, s));
            BeforeRight(k.up, k.sibling, k.entry);
            s, k := Fill(k, s), k.up;
          }
        }
        current := current.parent;
      }
      if current != null {
        RootPosition();
        ChildLinks(k, s);
        ChildLinks(k.up, Fill(k, s));
        PositionHere(k.up, Fill(k, s));
        current := current.parent;
      }
    }

    lemma {:induction false} EmptySize()
      ensures |InOrder(Leaf)| == 0 && |Before(Top)| == 0 && |After(Top)| == 0
    {
    }

    // Go to the first row of the subtree t.
    method Leftmost(ghost c: Context, ghost t: Tree)
      requires Shape() && tree == Plug(c, t) && t.Node? && current == t.entry.row
      modifies this`current
      ensures Shape() && Live(current) && current != null && Position(Order(), current) == |Before(c)|
    {
      hide Linked, Around, TreeLinked, Distinct, Rows, Shape, Rank;
      assert allocated(Rows(tree));
      ghost var k, s := c, t;
      ChildLinks(k, s);
      while current.left != null
        invariant Shape() && current != null
        invariant tree == Plug(k, s) && s.Node? && current == s.entry.row && Before(k) == Before(c)
        invariant current.left == Ptr(s.left)
        decreases s
      {
        k, s := OnLeft(k, s.entry, s.right), s.left;
        current := current.left;
        ChildLinks(k, s);
      }
      ChildLinks(k, s);
      PositionHere(k, s);
    }

    // -------------------------------------------------------------------------
    // Row numbers

    // A row the walk in CurrentRow can start from: the parent pointer leads into the table.
    ghost predicate Attached(r: TableRow?)
      reads this`tree, (if r == null then {} else {r})`parent
    {
      r != null && r != root ==> r.parent != null && (r.parent == root || r.parent in Rows(tree))
    }

    lemma {:induction false} LiveAttached(r: TableRow?)
      requires Shape() && Live(r)
      ensures Attached(r)
    {
      if r != null && r != root {
        var k, s := Focus(tree, r);
        ChildLinks(k, s);
        PlugRows(k, s);
      }
    }

    // What the walk finds: for a row of the table the number of visible rows before it, for one that
    // has left it what its last pointers and the counts of its last neighbours come to.
    ghost function RowNumber(r: TableRow?): int
      requires Attached(r)
      reads this`tree
      reads if r == null then {} else {r}
      reads if r == null || r.left == null then {} else {r.left}
      reads if r == null || r.parent == null then {} else {r.parent}
      reads if r == null || r.parent == null || r.parent.left == null then {} else {r.parent.left}
    {
      if Live(r) then Rank(Order(), r)
      else if r.parent == root then StoredCount(r.left)
      else StoredCount(r.left) + (if r.isLeft then 0 else r.parent.branchCount - r.branchCount)
           + Rank(Order(), r.parent) - StoredCount(r.parent.left)
    }

    lemma {:induction false} NumberAtEnds(row: TableRow?)
      requires Attached(row)
      ensures Live(row) ==> RowNumber(row) == Rank(Order(), row)
      ensures row != null && !Live(row) && row.parent == root ==> RowNumber(row) == StoredCount(row.left)
    {
    }

    // Where the walk starts: at a row of the table, or with one step into it.
    lemma {:induction false} NumberFrom(row: TableRow, k: Context, s: Tree)
      requires Shape() && Counted() && Attached(row) && row != root && tree == Plug(k, s) && s.Node?
      ensures s.entry.row == row ==> RowNumber(row) == StoredCount(row.left) + Visible(Before(k))
      ensures !Live(row) && row.parent == s.entry.row ==>
                RowNumber(row) == StoredCount(row.left)
                                  + (if row.isLeft then 0 else row.parent.branchCount - row.branchCount)
                                  + Visible(Before(k))
    {
      hide Linked, Around, TreeLinked, Distinct, Rows, Shape, Counted, InOrder, Rank, Position, HangsBelow,
           StoredHeight;
      ChildParents(k, s);
      PositionHere(k, s);
    }

    // One step up: the rows before the parent's subtree, and those between it and this one.
    lemma {:induction false} NumberStep(k: Context, s: Tree)
      requires Shape() && Counted() && tree == Plug(k, s) && s.Node?
      ensures k.Top? ==> Visible(Before(k)) == 0 && s.entry.row.parent == root
      ensures !k.Top? ==>
                var r, f := s.entry.row, Fill(k, s);
                && tree == Plug(k.up, f) && f.Node? && r.parent == f.entry.row && r.parent != root
                && Visible(Before(k))
                   == Visible(Before(k.up)) + if r.isLeft then 0 else r.parent.branchCount - r.branchCount
    {
      hide Linked, Around, TreeLinked, Distinct, Rows, Shape, Counted, InOrder, Rank, Position, HangsBelow,
           StoredHeight;
      ChildParents(k, s);
      if !k.Top? {
        ChildParents(k.up, Fill(k, s));
        BeforeRight(k.up, k.sibling, k.entry);
      }
    }

    method CurrentRow(row: TableRow?) returns (currentRow: int)
      requires Shape() && Counted() && Attached(row)
      ensures currentRow == RowNumber(row)
      ensures Live(row) ==> currentRow == Rank(Order(), row)
    {
      hide RowNumber, Linked, Around, TreeLinked, Distinct, Rows, Shape, Counted, InOrder, Rank, Position, HangsBelow,
           StoredHeight, Before, Plug;
      RankEnds();
      NumberAtEnds(row);
      if row == null {
        return root.branchCount;
      }
      if row == root {
        return 0;
      }
      currentRow := 0;
      ghost var live, goal := Live(row), RowNumber(row);
      ghost var k, s := Top, tree;
      if live || row.parent != root {
        k, s := Focus(tree, if live then row else row.parent);
        NumberFrom(row, k, s);
      }
      if row.left != null {
        currentRow := currentRow + row.left.branchCount;
      }
      var r: TableRow := row;
      ghost var inTree := live;
      assert allocated(Rows(tree));
      while r.parent != null && r.parent != root
        invariant Shape() && Counted()
        invariant !inTree ==> !live && r == row && currentRow == StoredCount(row.left)
        invariant !inTree && row.parent != root ==>
                    goal == currentRow + (if r.isLeft then 0 else r.parent.branchCount - r.branchCount)
                            + Visible(Before(k))
        invariant r.parent != root || inTree ==>
                    tree == Plug(k, s) && s.Node? && s.entry.row == if inTree then r else r.parent
        invariant inTree ==> currentRow + Visible(Before(k)) == goal
        decreases Depth(k) + if inTree then 0 else 1
      {
        NumberStep(k, s);
        if !r.isLeft {
          currentRow := currentRow + (r.parent.branchCount - r.branchCount);
        }
        r := r.parent;
        if inTree {
          s, k := Fill(k, s), k.up;
        }
        inTree := true;
      }
      if inTree {
        NumberStep(k, s);
      }
    }

    lemma {:induction false} RankEnds()
      requires Shape() && Counted()
      ensures Rank(Order(), null) == root.branchCount == Count(tree) == Visible(Order())
      ensures Rank(Order(), root) == 0
    {
      RootPosition();
      CountIsVisible(tree);
      assert Order()[..|Order()|] == Order();
    }

    // -------------------------------------------------------------------------
    // Seeking

    method GetRowCount() returns (rowCount: nat, currentRow: int)
      requires Shape() && Counted() && Attached(current)
      ensures rowCount == Visible(Order()) && currentRow == RowNumber(current)
      ensures Live(current) ==> currentRow == Rank(Order(), current)
    {
      RankEnds();
      currentRow := CurrentRow(current);
      rowCount := root.branchCount;
    }

    method GetBookmark(bookmark: nat) returns (er: Status, position: int)
      requires Shape() && Counted()
      requires bookmark in bookmarks ==> Live(bookmarks[bookmark].position)
      ensures er == InvalidBookmark <==> bookmark !in bookmarks
      ensures bookmark in bookmarks ==>
                && position == Rank(Order(), bookmarks[bookmark].position)
                && er == if bookmarks[bookmark].firstRowPosition != position then PositionChanged else Success
    {
      if bookmark !in bookmarks {
        return InvalidBookmark, 0;
      }
      LiveAttached(bookmarks[bookmark].position);
      position := CurrentRow(bookmarks[bookmark].position);
      er := if bookmarks[bookmark].firstRowPosition != position then PositionChanged else Success;
    }

    // Put the cursor where `dest` visible rows lie before it.
    method SeekDown(dest: nat)
      requires Shape() && Counted() && 0 < Visible(Order()) && dest <= Visible(Order())
      modifies this`current
      ensures Shape() && Counted() && Live(current) && current != root && Rank(Order(), current) == dest
    {
      hide Linked, Around, TreeLinked, Distinct, Rows, Shape, Counted, InOrder, Rank, Position, HangsBelow,
           StoredHeight;
      RankEnds();
      RootPosition();
      var r: TableRow? := root.right;
      var d := dest;
      ghost var k, s := Top, tree;
      assert Visible(Before(Top)) == 0;
      assert allocated(Rows(tree));
      while true
        invariant Shape() && Counted()
        invariant r != null && tree == Plug(k, s) && s.Node? && r == s.entry.row
        invariant d >= 0
        invariant d <= Count(s) ==> Visible(Before(k)) + d == dest
        invariant d >= Count(s) ==> dest == Count(tree)
        decreases s
      {
        ChildParents(k, s);
        PositionHere(k, s);
        BeforeRight(k, s.left, s.entry);
        if (r.left == null && d == 0) || (r.left != null && r.left.branchCount == d) {
          break;
        }
        if r.left == null && r.right == null {
          r := null;
          break;
        } else if r.left != null && r.right == null {
          r := r.left;
          k, s := OnLeft(k, s.entry, s.right), s.left;
          continue;
        } else if r.left == null && r.right != null {
          d := d - if r.hidden then 0 else 1;
          r := r.right;
          k, s := OnRight(k, s.left, s.entry), s.right;
          continue;
        }
        if r.left.branchCount < d {
          d := d - (r.left.branchCount + if r.hidden then 0 else 1);
          r := r.right;
          k, s := OnRight(k, s.left, s.entry), s.right;
        } else {
          r := r.left;
          k, s := OnLeft(k, s.entry, s.right), s.left;
        }
      }
      current := r;
    }

    method SeekRow(origin: nat, seekTo: int) returns (er: Status, rowsSought: int)
      requires Shape() && Counted() && Attached(current)
      requires origin > SEEK_END && origin in bookmarks ==> Live(bookmarks[origin].position)
      modifies this`current
      ensures Shape() && Counted()
      ensures er == InvalidBookmark <==> origin > SEEK_END && origin !in bookmarks
      ensures er == InvalidBookmark ==> current == old(current)
      ensures er != InvalidBookmark ==> Live(current) && (current == root <==> Visible(Order()) == 0)
      ensures er != InvalidBookmark ==>
                var n, from := Visible(Order()), RowNumber(old(current));
                var base := if origin == SEEK_SET then 0 else if origin == SEEK_CUR then from
                            else if origin == SEEK_END then n else Rank(Order(), bookmarks[origin].position);
                && (n > 0 ==> Rank(Order(), current) == Clamp(base + seekTo, n))
                && rowsSought
                   == Clamp(base + seekTo, n)
                      - (if origin == SEEK_SET then 0 else if origin == SEEK_END then n else from)
    {
      hide RowNumber, Linked, Around, TreeLinked, Distinct, Rows, Shape, Counted, InOrder, Rank, Position, Visible;
      assert allocated(Rows(tree));
      er := Success;
      var rowCount, currentRow := GetRowCount();
      var dest := 0;
      if origin == SEEK_SET {
        dest := seekTo;
      } else if origin == SEEK_CUR {
        dest := currentRow + seekTo;
      } else if origin == SEEK_END {
        dest := rowCount + seekTo;
      } else {
        er, dest := GetBookmark(origin);
        if er != PositionChanged && er != Success {
          return er, 0;
        }
        dest := dest + seekTo;
      }
      if dest < 0 {
        dest := 0;
      }
      if dest >= rowCount {
        dest := rowCount;
      }
      if origin == SEEK_SET {
        rowsSought := dest;
      } else if origin == SEEK_CUR {
        rowsSought := dest - currentRow;
      } else if origin == SEEK_END {
        rowsSought := dest - rowCount;
      } else {
        rowsSought := dest - currentRow;
      }
      if rowCount == 0 {
        current := root;
        return;
      }
      SeekDown(dest);
    }

    // The cursor moves one row back, hidden rows included: from the first row to the sentinel,
    // from the sentinel past the end, and from past the end to the last visible row.
    method Prev()
      requires Shape() && Counted() && Live(current)
      modifies this`current
      ensures Shape() && Counted() && Live(current)
      ensures old(current) == null ==>
                if Visible(Order()) == 0 then current == root
                else current != root && Rank(Order(), current) == Visible(Order()) - 1
      ensures old(current) == root ==> current == null
      ensures old(current) != null && old(current) != root ==>
                current != null && Position(Order(), current) == old(Position(Order(), current)) - 1
    {
      hide Linked, Around, TreeLinked, Distinct, Rows, Shape, Counted, InOrder, Rank, Position, Visible;
      assert allocated(Rows(tree));
      if current == null {
        LiveAttached(current);
        var _, _ := SeekRow(SEEK_END, -1);
        return;
      }
      RootPosition();
      if current == root {
        current := current.parent;
        return;
      }
      ghost var k, s := Focus(tree, current);
      ChildLinks(k, s);
      PositionHere(k, s);
      if current.left != null {
        current := current.left;
        Rightmost(OnLeft(k, s.entry, s.right), s.left);
        return;
      }
      EmptySize();
      UpToTheLeft(k, s);
    }

    // Go to the last row of the subtree t.
    method Rightmost(ghost c: Context, ghost t: Tree)
      requires Shape() && tree == Plug(c, t) && t.Node? && current == t.entry.row
      modifies this`current
      ensures Shape() && Live(current) && current != null
                && Position(Order(), current) == |Before(c)| + |InOrder(t)| - 1
    {
      hide Linked, Around, TreeLinked, Distinct, Rows, Shape, Rank, InOrder;
      assert allocated(Rows(tree));
      ghost var k, s := c, t;
      ChildLinks(k, s);
      while current.right != null
        invariant Shape() && current != null
        invariant tree == Plug(k, s) && s.Node? && current == s.entry.row
        invariant |Before(k)| + |InOrder(s)| == |Before(c)| + |InOrder(t)|
        invariant current.right == Ptr(s.right)
        decreases s
      {
        BeforeRight(k, s.left, s.entry);
        PositionHere(k, s);
        k, s := OnRight(k, s.left, s.entry), s.right;
        current := current.right;
        ChildLinks(k, s);
      }
      ChildLinks(k, s);
      PositionHere(k, s);
      EmptySize();
    }

    // Leave the subtree t upwards to the row before its first.
    method UpToTheLeft(ghost c: Context, ghost t: Tree)
      requires Shape() && tree == Plug(c, t) && t.Node? && t.entry.row == current
      modifies this`current
      ensures Shape() && Live(current) && current != null && Position(Order(), current) == |Before(c)| - 1
    {
      hide Linked, Around, TreeLinked, Distinct, Rows, Shape, InOrder, Rank;
      assert allocated(Rows(tree));
      ghost var k, s := c, t;
      ChildLinks(k, s);
      while current != null && current.isLeft
        invariant Shape()
        invariant current != null && tree == Plug(k, s) && s.Node? && s.entry.row == current && Before(k) == Before(c)
        decreases Depth(k)
      {
        ChildLinks(k, s);
        ChildLinks(k.up, Fill(k, s));
        current := current.parent;
        s, k := Fill(k, s), k.up;
      }
      ChildLinks(k, s);
      EmptySize();
      RootPosition();
      if current != null {
        if !k.Top? {
          ChildLinks(k.up, Fill(k, s));
          PositionHere(k.up, Fill(k, s));
          BeforeRight(k.up, k.sibling, k.entry);
        }
        current := current.parent;
      }
    }

    // -------------------------------------------------------------------------
    // Adding a row

    // The comparator on nodes: the sentinel is before anything.
    method NodeLess(a: TableRow, b: TableRow) returns (less: bool)
      ensures less == if a.isRoot && !b.isRoot then true
                      else if b.isRoot then false
                      else RowLess(collate, a.cols, b.cols)
    {
      if a.isRoot && !b.isRoot {
        return true;
      }
      if b.isRoot {
        return false;
      }
      less := RowCompare(collate, a.cols, b.cols);
    }

    // Where a new row is to hang: the hole of c.
    method FindParent(newRow: TableRow) returns (parent: TableRow, isLeft: bool, ghost c: Context)
      requires Shape() && !newRow.isRoot
      ensures tree == Plug(c, Leaf) && parent == ParentOf(c, root) && isLeft == c.OnLeft?
      ensures |Before(c)| == InsertPosition(collate, tree, newRow.cols)
    {
      hide Linked, Around, TreeLinked, Distinct, Rows, Shape, RowLess, HangsBelow, InOrder, Position, ContextRows;
      assert allocated(Rows(tree));
      RootPosition();
      RootIsRoot();
      parent, isLeft, c := root, false, Top;
      ghost var s := tree;
      if s.Node? {
        ChildLinks(c, s);
      }
      while true
        invariant Shape()
        invariant parent == root ==> c == Top && s == tree
        invariant parent != root ==> s.Node? && s.entry.row == parent && !parent.isRoot
        invariant tree == Plug(c, s)
        invariant |Before(c)| + InsertPosition(collate, s, newRow.cols) == InsertPosition(collate, tree, newRow.cols)
        invariant parent != root ==> parent.left == Ptr(s.left) && parent.right == Ptr(s.right)
        invariant parent == root ==> parent.right == Ptr(tree)
        decreases s, if parent == root then 1 else 0
      {
        var less := NodeLess(newRow, parent);
        if less {
          if parent.left == null {
            isLeft := true;
            c := OnLeft(c, s.entry, s.right);
            break;
          }
          parent := parent.left;
          c, s := OnLeft(c, s.entry, s.right), s.left;
          ChildLinks(c, s);
          continue;
        }
        if parent.right == null {
          isLeft := false;
          if parent != root {
            BeforeRight(c, s.left, s.entry);
            c := OnRight(c, s.left, s.entry);
          }
          break;
        }
        if parent != root {
          BeforeRight(c, s.left, s.entry);
          c, s := OnRight(c, s.left, s.entry), s.right;
        }
        parent := parent.right;
        ChildLinks(c, s);
      }
    }

    lemma {:induction false} RootIsRoot()
      requires Shape()
      ensures root.isRoot && forall r :: r in Rows(tree) ==> !r.isRoot
    {
      forall r | r in Rows(tree)
        ensures !r.isRoot
      {
        var c, t := Focus(tree, r);
        PlugDistinct(c, t);
      }
    }

    // Hang a new row in the hole of c.
    method LinkRow(newRow: TableRow, parent: TableRow, isLeft: bool, ghost c: Context)
      requires Opened(c, Leaf, root) && parent == ParentOf(c, root) && isLeft == c.OnLeft?
      requires newRow !in ContextRows(c) && newRow != root && !newRow.isRoot && newRow.left == null
                 && newRow.right == null
      modifies newRow`parent, newRow`isLeft, parent`left, parent`right
      ensures Opened(c, Node(Leaf, Entry(newRow, newRow.hidden), Leaf), root)
    {
      hide Around, ContextRows, Opened, ContextDistinct, Above, Rows;
      OpenLeaf(c, root);
      if isLeft {
        parent.left := newRow;
      } else {
        parent.right := newRow;
      }
      newRow.parent := parent;
      newRow.isLeft := isLeft;
      OpenNew(c, Entry(newRow, newRow.hidden), root);
    }

    // The key of the row before the leftmost row of t: walk up while on the left, then once more.
    method KeyAbove(row: TableRow, ghost c: Context, ghost t: Tree) returns (key: Key)
      requires Shape() && tree == Plug(c, t) && t.Node? && t.entry.row == row && root.key == NO_KEY
      ensures key == KeyBefore(Order(), |Before(c)|)
    {
      hide Linked, Around, TreeLinked, Distinct, Rows, Shape;
      assert allocated(Rows(tree));
      var r: TableRow? := row;
      ghost var k, s := c, t;
      ChildLinks(k, s);
      while r != null && r.isLeft
        invariant Shape()
        invariant r != null && tree == Plug(k, s) && s.Node? && s.entry.row == r && Before(k) == Before(c)
        decreases Depth(k)
      {
        ChildLinks(k, s);
        ChildLinks(k.up, Fill(k, s));
        r := r.parent;
        s, k := Fill(k, s), k.up;
      }
      ChildLinks(k, s);
      if r == null || r.parent == null {
        return NO_KEY;
      }
      if !k.Top? {
        PositionHere(k.up, Fill(k, s));
        BeforeRight(k.up, k.sibling, k.entry);
      }
      key := r.parent.key;
    }

    lemma {:induction false} OpenShape(c: Context, t: Tree)
      requires tree == Plug(c, t) && root.isRoot
      ensures Shape() <==> Opened(c, t, root)
      ensures Rows(tree) == ContextRows(c) + Rows(t)
    {
      OpenClose(c, t, root);
    }

    lemma {:induction false} NewHoleHere(c: Context, e: Entry)
      requires Counted() && tree == Plug(c, Leaf)
      ensures SiblingsExact(OnLeft(c, e, Leaf)) && Exact(Leaf)
      ensures Plug(OnLeft(c, e, Leaf), Leaf) == Plug(c, Node(Leaf, e, Leaf))
      ensures Rows(Plug(c, Node(Leaf, e, Leaf))) == Rows(tree) + {e.row}
    {
      NewHole(c, e);
    }

    // Put a fresh row in its place and in the id map.
    method InsertRow(newRow: TableRow) returns (prevRow: Key)
      requires Shape() && Counted() && Avl(tree) && root.key == NO_KEY
      requires newRow !in Rows(tree) && newRow != root && !newRow.isRoot && newRow.left == null && newRow.right == null
      modifies this`tree, this`rows, newRow, root`left, root`right, root`height, root`branchCount
      modifies Rows(tree)`left, Rows(tree)`right, Rows(tree)`parent, Rows(tree)`isLeft, Rows(tree)`height,
          Rows(tree)`branchCount
      ensures Shape() && Counted() && Avl(tree) && rows == old(rows)[newRow.key := newRow]
      ensures var p := old(InsertPosition(collate, tree, newRow.cols));
              && Order() == Inserted(old(Order()), p, Entry(newRow, old(newRow.hidden)))
              && prevRow == KeyBefore(old(Order()), p)
      ensures Rows(tree) == old(Rows(tree)) + {newRow}
    {
      hide Linked, Around, TreeLinked, Distinct, Rows, Opened, Exact, Avl, InOrder, ContextRows, SiblingRows,
           SiblingsExact, PassRepairs, Inserted, InsertPosition, Plug, KeyBefore, Shape, Counted, PathBalanced,
           Height, Count, RowLess, HangsBelow, Before;
      RootIsRoot();
      assert allocated(Rows(tree));
      var parent, isLeft, c := FindParent(newRow);
      prevRow := KeyAtHole(parent, isLeft, c);
      ghost var e := Entry(newRow, newRow.hidden);
      ghost var t := Node(Leaf, e, Leaf);
      InsertOrder(c, e);
      InsertRepairs(c, e);
      NewHoleHere(c, e);
      OpenShape(c, Leaf);
      assert allocated(SiblingRows(OnLeft(c, e, Leaf))) && allocated(Rows(Leaf));
      LinkRow(newRow, parent, isLeft, c);
      tree := Plug(c, t);
      OpenShape(c, t);
      rows := rows[newRow.key := newRow];
      UpdateCountsInTree(newRow, OnLeft(c, e, Leaf), Leaf);
      RestructureRecursive(newRow, c, t, true);
    }

    // The key of the row that is to come before a new one in this hole.
    method KeyAtHole(parent: TableRow, isLeft: bool, ghost c: Context) returns (key: Key)
      requires Shape() && tree == Plug(c, Leaf) && root.key == NO_KEY
      requires parent == ParentOf(c, root) && isLeft == c.OnLeft?
      ensures key == KeyBefore(Order(), |Before(c)|)
    {
      if isLeft {
        ParentIsNode(c);
        key := KeyAbove(parent, c.up, Fill(c, Leaf));
      } else {
        key := parent.key;
        ParentIsBefore(c);
      }
    }

    lemma {:induction false} ParentIsNode(c: Context)
      requires Shape() && tree == Plug(c, Leaf) && c.OnLeft?
      ensures tree == Plug(c.up, Fill(c, Leaf)) && Before(c.up) == Before(c)
    {
    }

    lemma {:induction false} ParentIsBefore(c: Context)
      requires Shape() && tree == Plug(c, Leaf) && !c.OnLeft? && root.key == NO_KEY
      ensures ParentOf(c, root).key == KeyBefore(Order(), |Before(c)|)
    {
      if c.OnRight? {
        PositionHere(c.up, Fill(c, Leaf));
        BeforeRight(c.up, c.sibling, c.entry);
      }
    }

    // -------------------------------------------------------------------------
    // Deleting a row

    // Put the only child of `row`, if there is one, in its place.
    method UnlinkRow(row: TableRow, child: TableRow?, ghost c: Context, ghost t: Tree, ghost s: Tree)
      requires Opened(c, t, root) && OnlyChild(t, s) && row == t.entry.row && child == Ptr(s)
      modifies ParentOf(c, root)`left, ParentOf(c, root)`right, TopRow(s)`parent, TopRow(s)`isLeft
      ensures Opened(c, s, root)
    {
      hide Rows, ContextRows, Opened, Kept, Above, InnerRows;
      TakeOnlyChild(c, t, s, root);
      if row.isLeft {
        row.parent.left := child;
      } else {
        row.parent.right := child;
      }
      if child != null {
        child.parent := row.parent;
        child.isLeft := row.isLeft;
      }
      PlaceSubtree(c, s, root);
    }

    // Put `pred`, which is not in the tree, in the place of `row`.
    method SubstituteRow(row: TableRow, pred: TableRow, ghost c: Context, ghost l: Tree, ghost e: Entry, ghost r: Tree)
      requires Opened(c, Node(l, e, r), root) && row == e.row
      requires pred !in Rows(Node(l, e, r)) && pred !in ContextRows(c) && pred != root && !pred.isRoot
      modifies ParentOf(c, root)`left, ParentOf(c, root)`right, TopRow(l)`parent, TopRow(r)`parent
      modifies pred`left, pred`right, pred`parent, pred`isLeft
      ensures Opened(c, Node(l, Entry(pred, pred.hidden), r), root)
    {
      hide Rows, ContextRows, Opened, KeptPair, PairApart, PairRows, PairInner, Linked, Around, HangsBelow,
           InnerRows, Above, Distinct, HoleOf;
      TakePair(c, l, e, r, pred, root);
      TakeOverLinks(row, pred, c, l, e, r);
      if pred.left != null {
        pred.left.parent := pred;
      }
      if pred.right != null {
        pred.right.parent := pred;
      }
      assert KeptPair(c, l, r, root);
      PlacePair(c, l, Entry(pred, pred.hidden), r, root);
    }

    // The parent gets `pred` as its child, and `pred` the links of `row`.
    method TakeOverLinks(row: TableRow, pred: TableRow, ghost c: Context, ghost l: Tree, ghost e: Entry, ghost r: Tree)
      requires Opened(c, Node(l, e, r), root) && row == e.row
      requires pred !in Rows(Node(l, e, r)) && pred !in ContextRows(c) && pred != root
      modifies ParentOf(c, root)`left, ParentOf(c, root)`right, pred`left, pred`right, pred`parent, pred`isLeft
      ensures KeptPair(c, l, r, root) && HoleOf(c, root) == pred
      ensures pred.left == Ptr(l) && pred.right == Ptr(r) && pred.parent == ParentOf(c, root)
                && pred.isLeft == c.OnLeft?
    {
      hide Rows, ContextRows, Opened, KeptPair, PairApart, PairRows, PairInner, Linked, Around, HangsBelow,
           InnerRows, Above, Distinct;
      TakePair(c, l, e, r, pred, root);
      if row.isLeft {
        row.parent.left := pred;
      } else {
        row.parent.right := pred;
      }
      pred.parent := row.parent;
      pred.isLeft := row.isLeft;
      pred.left := row.left;
      pred.right := row.right;
    }

    // Delete a row with at most one child, and rebalance from its parent.
    method DeleteOneChild(row: TableRow, child: TableRow?, ghost c: Context, ghost t: Tree, ghost s: Tree)
      requires Shape() && Counted() && Avl(tree) && tree == Plug(c, t)
      requires OnlyChild(t, s) && row == t.entry.row && child == Ptr(s)
      modifies this`tree, root`left, root`right, root`height, root`branchCount
      modifies Rows(tree)`left, Rows(tree)`right, Rows(tree)`parent, Rows(tree)`isLeft, Rows(tree)`height,
          Rows(tree)`branchCount
      ensures Shape() && Counted() && Avl(tree) && Rows(tree) == old(Rows(tree)) - {row} && Attached(row)
      ensures var p := |Before(c)| + |InOrder(t.left)|;
              p < |old(Order())| && Order() == Removed(old(Order()), p)
      ensures tree == Risen(c, s) && LeftBehind(row, c, t)
    {
      hide Linked, Around, TreeLinked, Distinct, Rows, Opened, Exact, Avl, InOrder, ContextRows, SiblingRows,
           SiblingsExact, PassRepairs, Removed, Plug, Shape, Counted, PathBalanced, HangsBelow, Walked;
      ChildParents(c, t);
      OnlyChildRows(c, t, s);
      OnlyChildRepairs(c, t, s);
      OnlyChildOrder(c, t, s);
      RootIsRoot();
      OpenShape(c, t);
      assert allocated(Rows(s)) && allocated(SiblingRows(c));
      UnlinkRow(row, child, c, t, s);
      tree := Plug(c, s);
      OpenShape(c, s);
      UpdateCountsInTree(row.parent, c, s);
      RestructureRecursive(row.parent, if c.Top? then Top else c.up, if c.Top? then s else Fill(c, s), true);
    }

    // What a deleted row still holds.
    ghost predicate LeftBehind(row: TableRow, c: Context, t: Tree)
      requires t.Node?
      reads row
    {
      && row.parent == ParentOf(c, root) && row.isLeft == c.OnLeft?
      && row.left == Ptr(LastLeft(t)) && row.branchCount == LastCount(t)
    }

    lemma {:induction false} OnlyChildRows(c: Context, t: Tree, s: Tree)
      requires Shape() && Counted() && tree == Plug(c, t) && OnlyChild(t, s)
      ensures Rows(Plug(c, s)) == Rows(tree) - {t.entry.row}
      ensures Exact(s) && SiblingsExact(c) && TopRow(s) <= Rows(tree) && FrameRow(c) <= Rows(tree)
      ensures c.Top? || (ParentOf(c, root) in Rows(tree) && ParentOf(c, root) != t.entry.row)
    {
      PlugRows(c, t);
      PlugRows(c, s);
      PlugDistinct(c, t);
      PlugExact(c, t);
    }

    // The last row of the left subtree of t.
    method Predecessor(row: TableRow, ghost c: Context, ghost t: Tree)
        returns (pred: TableRow, ghost spine: Context, ghost u: Tree)
      requires Shape() && tree == Plug(c, t) && t.Node? && t.left.Node? && row == t.entry.row
      ensures RightSpine(spine) && Plug(spine, u) == t.left && u.Node? && u.right.Leaf? && u.entry.row == pred
      ensures Plug(Stack(spine, OnLeft(c, t.entry, t.right)), u) == tree
      ensures pred.right == null && pred.left == Ptr(u.left) && pred.hidden == u.entry.hidden
      ensures pred.parent == ParentOf(Stack(spine, OnLeft(c, t.entry, t.right)), root)
      ensures pred.key == KeyBefore(Order(), |Before(c)| + |InOrder(t.left)|)
    {
      hide Linked, Around, TreeLinked, Distinct, Rows, Shape, HangsBelow, InOrder, KeyBefore;
      ghost var d := OnLeft(c, t.entry, t.right);
      assert allocated(Rows(tree));
      ChildLinks(c, t);
      pred := row.left;
      spine, u := Top, t.left;
      ChildLinks(d, u);
      while pred.right != null
        invariant Shape()
        invariant RightSpine(spine) && Plug(spine, u) == t.left && u.Node? && u.entry.row == pred
        invariant Plug(Stack(spine, d), u) == tree
        invariant pred.right == Ptr(u.right) && pred.left == Ptr(u.left)
        decreases u
      {
        spine, u := OnRight(spine, u.left, u.entry), u.right;
        pred := pred.right;
        ChildLinks(Stack(spine, d), u);
      }
      ChildLinks(Stack(spine, d), u);
      LastOfLeft(c, t, spine, u);
    }

    lemma {:induction false} LastOfLeft(c: Context, t: Tree, spine: Context, u: Tree)
      requires tree == Plug(c, t) && t.Node? && RightSpine(spine) && Plug(spine, u) == t.left && u.Node?
                 && u.right.Leaf?
      ensures KeyBefore(Order(), |Before(c)| + |InOrder(t.left)|) == u.entry.row.key
    {
      SpineOrder(spine, u.left, u.entry);
      NodeOrder(c, t.left, t.entry, t.right);
      var a, b := Before(c), InOrder(Plug(spine, u.left));
      assert u == Node(u.left, u.entry, Leaf);
      assert Order()[|a| + |b|] == (a + (b + [u.entry]))[|a| + |b|] == u.entry;
    }

    // Take the predecessor out of its place and put it in the place of `row`.
    method SwapInPredecessor(row: TableRow, pred: TableRow, ghost c: Context, ghost t: Tree, ghost spine: Context,
        ghost u: Tree)
      requires Shape() && tree == Plug(c, t) && t.Node? && row == t.entry.row
      requires RightSpine(spine) && Plug(spine, u) == t.left && u.Node? && u.right.Leaf? && u.entry.row == pred
      requires pred.left == Ptr(u.left) && pred.hidden == u.entry.hidden
      modifies this`tree, root`left, root`right
      modifies Rows(tree)`left, Rows(tree)`right, Rows(tree)`parent, Rows(tree)`isLeft
      ensures Shape() && tree == Plug(c, Node(Plug(spine, u.left), u.entry, t.right))
                && Rows(tree) == old(Rows(tree)) - {row}
      ensures row.parent == ParentOf(c, root) && row.isLeft == c.OnLeft?
      ensures row.left == Ptr(Plug(spine, u.left)) && row.right == Ptr(t.right) && row.hidden == t.entry.hidden
    {
      hide Linked, Around, TreeLinked, Distinct, Rows, Opened, ContextRows, Shape, HangsBelow, Plug, Stack, TopRow,
           FrameRow;
      ghost var l1 := Plug(spine, u.left);
      ghost var full := Stack(spine, OnLeft(c, t.entry, t.right));
      RootIsRoot();
      PredecessorRows(c, t, spine, u);
      OpenShape(full, u);
      UnlinkRow(pred, pred.left, full, u, u.left);
      tree := Plug(c, Node(l1, t.entry, t.right));
      OpenShape(full, u.left);
      OpenShape(c, Node(l1, t.entry, t.right));
      ChildLinks(c, Node(l1, t.entry, t.right));
      SubstituteRow(row, pred, c, l1, t.entry, t.right);
      tree := Plug(c, Node(l1, u.entry, t.right));
      OpenShape(c, Node(l1, u.entry, t.right));
    }

    lemma {:induction false} PredecessorRows(c: Context, t: Tree, spine: Context, u: Tree)
      requires Shape() && tree == Plug(c, t) && t.Node? && Plug(spine, u) == t.left && u.Node? && u.right.Leaf?
      ensures var full, l1 := Stack(spine, OnLeft(c, t.entry, t.right)), Plug(spine, u.left);
              && Plug(full, u) == tree
              && Plug(full, u.left) == Plug(c, Node(l1, t.entry, t.right))
              && Rows(Node(l1, t.entry, t.right)) + ContextRows(c) == Rows(tree) - {u.entry.row}
              && Rows(Plug(c, Node(l1, u.entry, t.right))) == Rows(tree) - {t.entry.row}
              && TopRow(u.left) <= Rows(tree) && TopRow(l1) <= Rows(tree) && TopRow(t.right) <= Rows(tree)
              && ParentOf(full, root) in Rows(tree) + {root} && ParentOf(c, root) in Rows(tree) + {root}
              && (ParentOf(c, root) == root || t.entry.row !in TopRow(l1))
      ensures u.entry.row in Rows(tree) && u.entry.row != t.entry.row && t.entry.row !in Rows(Plug(spine, u.left))
      ensures t.entry.row !in TopRow(u.left) && t.entry.row !in TopRow(t.right)
    {
      hide Plug, Stack, Distinct, ContextRows, Linked, Around, TreeLinked;
      PredecessorPlugs(c, t, spine, u);
      ShapeDistinct();
      PredecessorApart(c, t, spine, u);
      var full := Stack(spine, OnLeft(c, t.entry, t.right));
      PlugRows(full, u);
      PlugRows(c, t);
    }

    lemma {:induction false} ShapeDistinct()
      requires Shape()
      ensures Distinct(tree)
    {
    }

    // The counts from the predecessor's old parent upwards, then from its new place upwards.
    // The old parent is the deleted row itself if the predecessor was its child.
    method RecountAfterSwap(row: TableRow, pred: TableRow, predParent: TableRow,
                            ghost c: Context, ghost spine: Context, ghost p: Tree, ghost e: Entry, ghost r: Tree)
      requires Shape() && tree == Plug(c, Node(Plug(spine, p), e, r)) && pred == e.row
      requires predParent == if spine.Top? then row else spine.entry.row
      requires row !in Rows(tree) && row != root && row.parent == ParentOf(c, root)
      requires Exact(p) && Exact(r) && SiblingsExact(spine) && SiblingsExact(c)
      requires row.left == Ptr(Plug(spine, p)) && row.right == Ptr(r)
      modifies root`height, root`branchCount, row`height, row`branchCount, Rows(tree)`height, Rows(tree)`branchCount
      ensures Shape() && Counted()
      ensures row.branchCount
              == if spine.Top? then (if row.hidden then 0 else 1) + Count(p) + Count(r) else old(row.branchCount)
    {
      hide Linked, Around, TreeLinked, Distinct, Rows, Opened, ContextRows, SiblingRows, SiblingsExact, Exact, Shape,
           Counted, HangsBelow, Plug, Stack, PathReady, Spine, ChainUp;
      ghost var l1 := Plug(spine, p);
      ghost var full := Stack(spine, OnLeft(c, e, r));
      ghost var loose := OnLeft(c, Entry(row, row.hidden), Leaf);
      SwapHoles(row, c, spine, p, e, r);
      if spine.Top? {
        LooseRow(row, c, p, e, r);
      }
      assert allocated(Rows(tree)) && allocated(Rows(l1)) && allocated(Rows(r)) && allocated(SiblingRows(c));
      UpdateCounts(predParent, if spine.Top? then loose else full, if spine.Top? then Leaf else p, !spine.Top?);
      CountedParts(c, l1, e, r);
      UpdateCountsInTree(pred, OnLeft(c, e, r), l1);
    }

    lemma {:induction false} SwapHoles(row: TableRow, c: Context, spine: Context, p: Tree, e: Entry, r: Tree)
      requires Shape() && tree == Plug(c, Node(Plug(spine, p), e, r))
      requires row !in Rows(tree) && row != root && row.parent == ParentOf(c, root)
      requires Exact(p) && Exact(r) && SiblingsExact(spine) && SiblingsExact(c)
      ensures var full := Stack(spine, OnLeft(c, e, r));
              && Plug(full, p) == tree
              && (!spine.Top? ==> ParentOf(full, root) == spine.entry.row)
              && (!spine.Top? ==>
                  root !in Spine(full) && Spine(full) <= Rows(tree) && ChainUp(full, root) && PathReady(full, p, root))
      ensures var loose := OnLeft(c, Entry(row, row.hidden), Leaf);
              root !in Spine(loose) && Spine(loose) <= Rows(tree) + {row} && ChainUp(loose, root)
              && Spine(loose) !! Rows(Plug(spine, p)) && Spine(loose) !! Rows(r) && Spine(loose) !! SiblingRows(c)
      ensures root !in Rows(Plug(spine, p)) && root !in Rows(r) && root !in SiblingRows(c) && root.parent == null
      ensures spine.Top? ==> Plug(spine, p) == p
      ensures !spine.Top? ==> row !in Spine(Stack(spine, OnLeft(c, e, r)))
    {
      hide Linked, Around, Exact, SiblingsExact, PathReady, Distinct, Rows, TreeLinked;
      var l1 := Plug(spine, p);
      var t1 := Node(l1, e, r);
      PlugStack(spine, OnLeft(c, e, r), p);
      StackSiblingsExact(spine, OnLeft(c, e, r));
      OpenNode(c, l1, e, r);
      if !spine.Top? {
        HoleExact(c, e, r);
        PathReadyInTree(Stack(spine, OnLeft(c, e, r)), p, root);
      }
    }

    lemma {:induction false} LooseRow(row: TableRow, c: Context, l: Tree, e: Entry, r: Tree)
      requires Shape() && tree == Plug(c, Node(l, e, r)) && Exact(l) && Exact(r)
      requires row !in Rows(tree) && row != root && row.left == Ptr(l) && row.right == Ptr(r)
      ensures CutLoose(row, OnLeft(c, Entry(row, row.hidden), Leaf))
      ensures ChildrenCount(row) == (if row.hidden then 0 else 1) + Count(l) + Count(r)
    {
      hide Linked, Around, SiblingsExact, Distinct, TreeLinked;
      OpenNode(c, l, e, r);
      assert l.Node? ==> l.entry.row in Rows(l);
      assert r.Node? ==> r.entry.row in Rows(r);
    }

    lemma {:induction false} HoleExact(c: Context, e: Entry, r: Tree)
      requires Exact(r) && SiblingsExact(c)
      ensures SiblingsExact(OnLeft(c, e, r))
    {
    }

    lemma {:induction false} OpenNode(c: Context, l: Tree, e: Entry, r: Tree)
      requires Shape() && tree == Plug(c, Node(l, e, r))
      ensures Distinct(tree) && TreeLinked(tree, root) && root !in Rows(tree) && root.isRoot
      ensures ChainUp(c, root) && Spine(c) <= Rows(tree) && root.parent == null
      ensures Spine(c) !! Rows(l) && Spine(c) !! Rows(r) && Spine(c) !! SiblingRows(c)
      ensures Rows(l) <= Rows(tree) && Rows(r) <= Rows(tree) && SiblingRows(c) <= Rows(tree)
    {
      PlugRows(c, Node(l, e, r));
      PlugDistinct(c, Node(l, e, r));
      PlugLinked(c, Node(l, e, r), root);
      LinkedChainUp(c, root, e.row);
      SpineInContext(c);
      SpineApart(c);
      SiblingsInContext(c);
    }

    // Where everything is counted, the parts of the tree are; otherwise nothing is claimed.
    lemma {:induction false} CountedParts(c: Context, l: Tree, e: Entry, r: Tree)
      requires tree == Plug(c, Node(l, e, r))
      ensures Plug(OnLeft(c, e, r), l) == tree
      ensures Exact(tree) ==> Exact(l) && SiblingsExact(OnLeft(c, e, r))
      ensures Exact(r) && SiblingsExact(c) ==> SiblingsExact(OnLeft(c, e, r))
    {
      PlugExact(c, Node(l, e, r));
    }

    // Rebalance from the predecessor's new place, then from its old parent.
    method RebalanceAfterSwap(row: TableRow, pred: TableRow, predParent: TableRow,
                              ghost c: Context, ghost rowEntry: Entry, ghost spine: Context, ghost p: Tree,
                                  ghost e: Entry, ghost r: Tree)
      requires Shape() && Counted() && tree == Plug(c, Node(Plug(spine, p), e, r)) && pred == e.row
      requires RightSpine(spine) && Avl(Plug(c, Node(Plug(spine, Node(p, e, Leaf)), rowEntry, r)))
      requires predParent == if spine.Top? then row else spine.entry.row
      requires forall x :: x in Rows(tree) ==> x.key != row.key
      modifies this`tree, root`left, root`right, root`height, root`branchCount
      modifies Rows(tree)`left, Rows(tree)`right, Rows(tree)`parent, Rows(tree)`isLeft, Rows(tree)`height,
          Rows(tree)`branchCount
      ensures Shape() && Counted() && Avl(tree) && Order() == old(Order()) && Rows(tree) == old(Rows(tree))
      ensures tree == Walked(c, Node(Risen(spine, p), e, r))
    {
      hide Linked, Around, TreeLinked, Distinct, Rows, ContextRows, Exact, Shape, Counted, Plug, Stack, InOrder, Avl,
           PassRepairs, PathBalanced, Height, HangsBelow, Walked, Risen;
      ghost var t1 := Node(Plug(spine, p), e, r);
      ghost var low := Avl(t1.left);
      FirstDeletePass(c, rowEntry, spine, p, e, r);
      TwoPasses(c, spine, p, e, r);
      OldParentPlaced(c, spine, p, e, r);
      ChildLinks(c, t1);
      assert allocated(Rows(tree));
      RestructureRecursive(pred, c, t1, low);
      if predParent.key != row.key {
        ghost var k, s := Stack(spine.up, OnLeft(c, e, r)), Fill(spine, p);
        if low {
          k, s := Focus(tree, predParent);
          AvlPassRepairs(k, s);
          AvlPathBalanced(k, s);
          WalkedBalanced(k, s);
        } else {
          SecondDeletePass(c, rowEntry, spine, p, e, r);
        }
        RestructureRecursive(predParent, k, s, true);
      } else {
        SpineTopAvl(c, rowEntry, spine, p, e, r);
      }
    }

    lemma {:induction false} OldParentPlaced(c: Context, spine: Context, p: Tree, e: Entry, r: Tree)
      requires Shape() && tree == Plug(c, Node(Plug(spine, p), e, r)) && RightSpine(spine)
      ensures !spine.Top? ==> spine.OnRight? && spine.entry.row in Rows(tree) && spine.entry.row != root
                              && Plug(Stack(spine.up, OnLeft(c, e, r)), Fill(spine, p)) == tree
    {
      if !spine.Top? {
        var d := OnLeft(c, e, r);
        PlugStack(spine, d, p);
        PlugStack(spine.up, d, Fill(spine, p));
        PlugRows(Stack(spine.up, d), Fill(spine, p));
      }
    }

    lemma {:induction false} SpineTopAvl(c: Context, rowEntry: Entry, spine: Context, p: Tree, e: Entry, r: Tree)
      requires Avl(Plug(c, Node(Plug(spine, Node(p, e, Leaf)), rowEntry, r))) && spine.Top?
      ensures Avl(Plug(spine, p))
    {
      PlugAvl(c, Node(Plug(spine, Node(p, e, Leaf)), rowEntry, r));
      assert Avl(Node(p, e, Leaf));
    }

    // Delete a row with two children.
    method DeleteTwoChildren(row: TableRow, ghost c: Context, ghost t: Tree)
      requires Shape() && Counted() && Avl(tree) && tree == Plug(c, t) && t.Node? && row == t.entry.row
      requires t.left.Node? && t.right.Node?
      requires forall x :: x in Rows(tree) && x.key == row.key ==> x == row
      modifies this`tree, root`left, root`right, root`height, root`branchCount
      modifies Rows(tree)`left, Rows(tree)`right, Rows(tree)`parent, Rows(tree)`isLeft, Rows(tree)`height,
          Rows(tree)`branchCount
      ensures Shape() && Counted() && Avl(tree) && Rows(tree) == old(Rows(tree)) - {row} && Attached(row)
      ensures var p := |Before(c)| + |InOrder(t.left)|;
              p < |old(Order())| && Order() == Removed(old(Order()), p)
      ensures tree == Risen(c, WithoutTop(t)) && LeftBehind(row, c, t)
    {
      hide Risen, WithoutTop, LastLeft, LastCount, Linked, Around, TreeLinked, Distinct, Rows, ContextRows, SiblingRows,
           SiblingsExact, Exact, Shape, Counted, Plug, Stack, InOrder, Avl, HangsBelow, Removed, RightSpine;
      assert allocated(Rows(tree));
      ChildParents(c, t);
      var pred, spine, u := Predecessor(row, c, t);
      ghost var p, r, l1 := u.left, t.right, Plug(spine, u.left);
      RootIsRoot();
      DeleteTwoFacts(c, t, spine, u);
      WithoutTopIsTwoPasses(c, t, spine, u);
      LastOfTwo(t, spine, u);
      assert allocated(Rows(p)) && allocated(Rows(r)) && allocated(SiblingRows(spine)) && allocated(SiblingRows(c));
      var predParent: TableRow := pred.parent;
      SwapInPredecessor(row, pred, c, t, spine, u);
      RecountAfterSwap(row, pred, predParent, c, spine, p, u.entry, r);
      RebalanceAfterSwap(row, pred, predParent, c, t.entry, spine, p, u.entry, r);
    }

    lemma {:induction false} DeleteTwoFacts(c: Context, t: Tree, spine: Context, u: Tree)
      requires Shape() && Counted() && Avl(tree) && tree == Plug(c, t) && t.Node?
      requires RightSpine(spine) && Plug(spine, u) == t.left && u.Node? && u.right.Leaf?
      ensures u == Node(u.left, u.entry, Leaf) && t == Node(t.left, t.entry, t.right)
      ensures Exact(u.left) && Exact(t.right) && SiblingsExact(spine) && SiblingsExact(c)
      ensures ParentOf(Stack(spine, OnLeft(c, t.entry, t.right)), root)
              == if spine.Top? then t.entry.row else spine.entry.row
      ensures var p := |Before(c)| + |InOrder(t.left)|;
              p < |Order()| && InOrder(Plug(c, Node(Plug(spine, u.left), u.entry, t.right))) == Removed(Order(), p)
      ensures c.Top? || ParentOf(c, root) in Rows(tree) - {t.entry.row}
      ensures c.Top? ==> ParentOf(c, root) == root
    {
      hide Plug, InOrder, Before, Removed, Shape, Avl, RightSpine, Rows, Distinct;
      PlugExact(c, t);
      PlugExact(spine, u);
      DeleteOrder(c, t.entry, spine, u.left, u.entry, t.right);
      RowsAround(c, t);
    }

    lemma {:induction false} RowsAround(c: Context, t: Tree)
      requires Shape() && tree == Plug(c, t) && t.Node?
      ensures c.Top? || ParentOf(c, root) in Rows(tree) - {t.entry.row}
    {
      PlugRows(c, t);
      PlugDistinct(c, t);
    }

    // The number that the walk in CurrentRow finds for a deleted row, by the tree before the delete.
    lemma {:induction false} NumberLeftBehind(row: TableRow, c: Context, t: Tree)
      requires Shape() && Counted() && t.Node? && Avl(Plug(c, t)) && tree == Risen(c, WithoutTop(t))
      requires LeftBehind(row, c, t) && row !in Rows(tree) && row != root
      ensures Attached(row) && RowNumber(row) == Visible(Before(c)) + Count(t.left) - Setback(t, c.OnRight?)
    {
      hide Linked, Around, Exact, Distinct, TreeLinked, Shape, Counted, Plug, Stack, Risen, WithoutTop, Setback,
           LastLeftCount, Avl, Height, InOrder, Position, Rank, HangsBelow, StoredHeight, Lifted;
      PlugAvl(c, t);
      WithoutTopShrinks(t);
      SetbackIs(t, c.OnRight?);
      var s := WithoutTop(t);
      var k := RisenKeeps(c, t, s);
      var j, x := LastLeftStays(t);
      if LastLeft(t).Node? {
        PlugStack(j, k, x);
        ChildParents(Stack(j, k), x);
      }
      assert StoredCount(row.left) == LastLeftCount(t);
      if !c.Top? {
        HoleNumber(k, s);
      }
    }

    // The parent of a hole and the counts around it.
    lemma {:induction false} HoleNumber(k: Context, s: Tree)
      requires Shape() && Counted() && tree == Plug(k, s) && !k.Top?
      ensures var r := k.entry.row;
              && r in Rows(tree) && r != root
              && Rank(Order(), r) - StoredCount(r.left) == Visible(Before(k.up))
              && (k.OnLeft? ==> Visible(Before(k)) == Visible(Before(k.up)))
              && (k.OnRight? ==> Visible(Before(k)) == Visible(Before(k.up)) + r.branchCount - Count(s))
    {
      hide Linked, Around, Exact, Distinct, TreeLinked, Shape, Counted, InOrder, Position, Rank, HangsBelow,
           StoredHeight;
      var f := Fill(k, s);
      assert Plug(k.up, f) == tree;
      ChildParents(k.up, f);
      PositionHere(k.up, f);
      if k.OnRight? {
        BeforeRight(k.up, k.sibling, k.entry);
      }
    }

    // Take a row out of the tree.
    method DeleteNode(row: TableRow)
      requires Shape() && Counted() && Avl(tree) && row in Rows(tree)
      requires forall x :: x in Rows(tree) && x.key == row.key ==> x == row
      modifies this`tree, root`left, root`right, root`height, root`branchCount
      modifies Rows(tree)`left, Rows(tree)`right, Rows(tree)`parent, Rows(tree)`isLeft, Rows(tree)`height,
          Rows(tree)`branchCount
      ensures Shape() && Counted() && Avl(tree) && Rows(tree) == old(Rows(tree)) - {row} && Attached(row)
      ensures var p := Position(old(Order()), row);
              0 <= p < |old(Order())| && Order() == Removed(old(Order()), p)
      ensures RowNumber(row) == old(Rank(Order(), row)) - old(SetbackOf(tree, false, row))
    {
      hide RowNumber, Setback, SetbackOf, Risen, WithoutTop, LeftBehind, Linked, Around, TreeLinked, Distinct, Rows,
           Exact, Shape, Counted, Plug, InOrder, Avl, Removed, Position, Attached, Rank;
      ghost var c, t := Focus(tree, row);
      ChildLinks(c, t);
      PositionHere(c, t);
      SetbackIn(c, t);
      if row.left == null && row.right == null {
        DeleteOneChild(row, null, c, t, t.left);
      } else if row.left != null && row.right == null {
        DeleteOneChild(row, row.left, c, t, t.left);
      } else if row.right != null && row.left == null {
        DeleteOneChild(row, row.right, c, t, t.right);
      } else {
        DeleteTwoChildren(row, c, t);
      }
      NumberLeftBehind(row, c, t);
    }

    lemma {:induction false} SetbackIn(c: Context, t: Tree)
      requires Shape() && tree == Plug(c, t) && t.Node?
      ensures SetbackOf(tree, false, t.entry.row) == Setback(t, c.OnRight?)
      ensures t.left.Leaf? ==> WithoutTop(t) == t.right
      ensures t.right.Leaf? ==> WithoutTop(t) == t.left
    {
      hide Setback;
      SetbackHere(c, t, false, t.entry.row);
    }

    // -------------------------------------------------------------------------
    // The whole table

    ghost predicate Valid()
      reads this`tree, this`rows, this`current, this`bookmarks, this`bookmarkPosition
      reads root`left, root`right, root`parent, root`isLeft, root`branchCount, root`hidden
      reads Rows(tree)`left, Rows(tree)`right, Rows(tree)`parent, Rows(tree)`isLeft, Rows(tree)`hidden
      reads Rows(tree)`height, Rows(tree)`branchCount
    {
      && Shape() && Counted() && Avl(tree) && root.key == NO_KEY && !root.hidden
      && Mapped(rows, Rows(tree)) && Live(current) && BookmarksLive(bookmarks, bookmarkPosition, Rows(tree) + {root})
    }

    method InvalidateBookmark(row: TableRow)
      modifies this`bookmarks
      ensures bookmarks == WithoutRow(old(bookmarks), row) && |bookmarks| <= |old(bookmarks)|
    {
      var left := bookmarks.Keys;
      while left != {}
        invariant left <= bookmarks.Keys <= old(bookmarks).Keys && |bookmarks| <= |old(bookmarks)|
        invariant forall b :: b in bookmarks ==> bookmarks[b] == old(bookmarks)[b]
        invariant forall b :: b in old(bookmarks) && (b in left || old(bookmarks)[b].position != row) ==> b in bookmarks
        invariant forall b :: b in bookmarks && b !in left ==> bookmarks[b].position != row
        decreases |left|
      {
        var b :| b in left;
        left := left - {b};
        if bookmarks[b].position == row {
          ghost var before := bookmarks;
          bookmarks := bookmarks - {b};
          assert before.Keys == bookmarks.Keys + {b};
        }
      }
    }

    // The cursor stands where `rank` visible rows are ahead of it; in a table without any, on the sentinel.
    ghost predicate LandsOn(rank: nat)
      reads this`tree, this`current
    {
      if Visible(Order()) == 0 then current == root else current != root && Rank(Order(), current) == rank
    }

    // If the cursor is on a row that has just left the tree, go one row back and one on from the
    // number found for the lost row.
    method MoveCursorOff(row: TableRow)
      requires Shape() && Counted() && Attached(row) && row !in Rows(tree) && row != root
      requires current == row || Live(current)
      modifies this`current
      ensures Shape() && Counted() && Live(current)
      ensures if old(current) == row then LandsOn(Landing(RowNumber(row), Visible(Order())))
              else current == old(current)
    {
      if current == row {
        var _, _ := SeekRow(SEEK_CUR, -1);
        LiveAttached(current);
        var _, _ := SeekRow(SEEK_CUR, 1);
      }
    }

    // The cursor was on a row with p visible rows ahead of it; now the row is gone.  Where the
    // cursor is, and when that is on the next row, or on the last one if there is no next.
    ghost predicate MovedOff(p: nat, setback: nat)
      reads this`tree, this`current
    {
      var n := Visible(Order());
      && p <= n && LandsOn(Landing(p - setback, n))
      && (LandsOn(Promised(p, n)) <==> MovesOn(p, n, setback))
    }

    lemma {:induction false} MovedOffHere(p: nat, setback: nat)
      requires p <= Visible(Order()) && LandsOn(Landing(p - setback, Visible(Order())))
      ensures MovedOff(p, setback)
    {
      LandsAsPromised(p, Visible(Order()), setback);
    }

    // With no row hidden: the second row, or a later one that is no right child and has at most one
    // child; or the last row, if two others stay.
    lemma {:induction false} MovesOnPlainly(row: TableRow)
      requires Valid() && row in Rows(tree) && NothingHidden(Order())
      ensures var p, n := Rank(Order(), row), |Order()| - 1;
              && p == Position(Order(), row) <= n
              && (MovesOn(p, n, SetbackOf(tree, false, row)) <==>
                    || n == 0
                    || (p < n && (p == 1
                        || (p >= 2 && (row.isLeft || row.parent == root) && (row.left == null || row.right == null))))
                    || p == n >= 2)
    {
      hide Linked, Around, TreeLinked, Distinct, Rows, Shape, Counted, Plug, InOrder, Avl, Position, Rank, Setback,
           SetbackOf, HangsBelow, Landing, Promised;
      ghost var c, t := Focus(tree, row);
      ChildParents(c, t);
      PositionHere(c, t);
      SetbackIn(c, t);
      KeepsPromiseExactly(c, t);
      RankIsVisible(Order(), row);
      ShownRank(Order(), |Before(c)| + |InOrder(t.left)|);
    }

    // Out of the tree, and the cursor off it.
    method DeleteFromTree(row: TableRow)
      requires Shape() && Counted() && Avl(tree) && row in Rows(tree) && row != root && Live(current)
      requires forall x :: x in Rows(tree) && x.key == row.key ==> x == row
      modifies this`tree, this`current, root`left, root`right, root`height, root`branchCount
      modifies Rows(tree)`left, Rows(tree)`right, Rows(tree)`parent, Rows(tree)`isLeft, Rows(tree)`height,
          Rows(tree)`branchCount
      ensures Shape() && Counted() && Avl(tree) && Rows(tree) == old(Rows(tree)) - {row}
      ensures var p := Position(old(Order()), row);
              0 <= p < |old(Order())| && Order() == Removed(old(Order()), p)
      ensures Live(current)
      ensures if old(current) == row then MovedOff(old(Rank(Order(), row)), old(SetbackOf(tree, false, row)))
              else current == old(current)
    {
      hide MovedOff, LandsOn, SetbackOf, RowNumber, Landing, Rows, Exact, Plug, InOrder, Avl, Removed, Position,
           Attached, Shape, Counted;
      assert allocated(Rows(tree));
      ghost var s := Order();
      DeleteNode(row);
      assert allocated(Rows(tree));
      MoveCursorOff(row);
      RankStays(s, row);
      if old(current) == row {
        MovedOffHere(Rank(s, row), old(SetbackOf(tree, false, row)));
      }
    }

    // UpdateRow_Delete
    method DeleteRow(key: Key) returns (er: Status)
      requires Valid()
      modifies this`tree, this`rows, this`current, this`bookmarks, root`left, root`right, root`height, root`branchCount
      modifies Rows(tree)`left, Rows(tree)`right, Rows(tree)`parent, Rows(tree)`isLeft, Rows(tree)`height,
          Rows(tree)`branchCount
      ensures Valid()
      ensures er == if key in old(rows) then Success else NotFound
      ensures key !in old(rows) ==>
                tree == old(tree) && rows == old(rows) && current == old(current) && bookmarks == old(bookmarks)
      ensures key in old(rows) ==>
                var p := Position(old(Order()), old(rows[key]));
                && 0 <= p < |old(Order())| && Order() == Removed(old(Order()), p)
                && rows == old(rows) - {key} && Rows(tree) == old(Rows(tree)) - {old(rows[key])}
                && bookmarks == WithoutRow(old(bookmarks), old(rows[key]))
                && (old(current) != old(rows[key]) ==> current == old(current))
      ensures key in old(rows) && old(current) == old(rows[key]) ==>
                MovedOff(old(Rank(Order(), rows[key])), old(SetbackOf(tree, false, rows[key])))
    {
      hide MovedOff, SetbackOf, Rank, Rows, Exact, Plug, InOrder, Avl, Removed, Position, Attached, Shape, Counted,
           Mapped, BookmarksLive, WithoutRow;
      assert allocated(Rows(tree));
      if key !in rows {
        return NotFound;
      }
      var row := rows[key];
      RootIsRoot();
      MappedWithout(rows, Rows(tree), key);
      DeleteFromTree(row);
      assert allocated(Rows(tree));
      InvalidateBookmark(row);
      BookmarksWithout(old(bookmarks), bookmarkPosition, old(Rows(tree)) + {root}, row);
      assert old(Rows(tree)) + {root} - {row} == Rows(tree) + {root};
      assert BookmarksLive(bookmarks, bookmarkPosition, Rows(tree) + {root});
      rows := rows - {key};
      er := Success;
    }

    // The key of the row before the given one.
    method PreviousKey(row: TableRow) returns (key: Key)
      requires Shape() && root.key == NO_KEY && row in Rows(tree)
      ensures key == KeyBefore(Order(), Position(Order(), row))
    {
      hide Linked, Around, TreeLinked, Distinct, Rows, Shape, InOrder, KeyBefore, Position, Rank;
      ghost var c, t := Focus(tree, row);
      ChildLinks(c, t);
      PositionHere(c, t);
      EmptySize();
      if row.left != null {
        var pred, _, _ := Predecessor(row, c, t);
        key := pred.key;
      } else {
        key := KeyAbove(row, c, t);
      }
    }

    // Whether a row with these columns would compare equal to the one already there.
    ghost predicate SameRow(key: Key, cols: Cols)
      reads this`rows
    {
      key in rows && !RowLess(collate, rows[key].cols, cols) && !RowLess(collate, cols, rows[key].cols)
    }

    // The order without the row of that key, if there is one.
    ghost function OrderWithout(key: Key): (s: seq<Entry>)
      requires Valid()
      reads this`tree, this`rows, this`current, this`bookmarks, this`bookmarkPosition
      reads root`left, root`right, root`parent, root`isLeft, root`branchCount, root`hidden
      reads Rows(tree)`left, Rows(tree)`right, Rows(tree)`parent, Rows(tree)`isLeft, Rows(tree)`hidden
      reads Rows(tree)`height, Rows(tree)`branchCount
    {
      if key in rows then
        RowsInOrder(tree);
        Removed(Order(), IndexOf(Order(), rows[key]))
      else Order()
    }

    // UpdateRow_Modify: add a row, or give a row new columns.  A row that compares equal to the
    // one already there changes nothing, not even the hidden flag.
    method ModifyRow(key: Key, cols: Cols, hidden: bool) returns (er: Status, prevRow: Key, action: UpdateType)
      requires Valid()
      modifies this`tree, this`rows, this`current, this`bookmarks, root`left, root`right, root`height, root`branchCount
      modifies Rows(tree)`left, Rows(tree)`right, Rows(tree)`parent, Rows(tree)`isLeft, Rows(tree)`height,
          Rows(tree)`branchCount
      ensures Valid() && er == Success
      ensures action == if key in old(rows) then RowModify else RowAdd
      ensures key in rows
      ensures if key in old(rows) && TableSpec.Alike(collate, old(rows)[key].cols, cols) then
                tree == old(tree) && rows == old(rows)
              else rows[key].cols == cols
      ensures old(SameRow(key, cols)) ==>
                && tree == old(tree) && rows == old(rows) && current == old(current) && bookmarks == old(bookmarks)
                && prevRow == KeyBefore(Order(), Position(Order(), rows[key]))
      ensures !old(SameRow(key, cols)) ==>
                && key in rows && fresh(rows[key]) && rows[key].cols == cols && rows == old(rows)[key := rows[key]]
                && HasRow(Order(), rows[key])
      ensures !old(SameRow(key, cols)) ==>
                var base, p := old(OrderWithout(key)), Position(Order(), rows[key]);
                && 0 <= p <= |base| && Fits(collate, base, p, cols)
                && Order() == Inserted(base, p, Entry(rows[key], hidden))
                && prevRow == KeyBefore(base, p)
      ensures !old(SameRow(key, cols)) && key !in old(rows) ==> current == old(current) && bookmarks == old(bookmarks)
      ensures !old(SameRow(key, cols)) && key in old(rows) ==>
                && bookmarks == WithoutRow(old(bookmarks), old(rows[key]))
                && current == if old(current) == old(rows[key]) then rows[key] else old(current)
    {
      hide Rows, Exact, Plug, InOrder, Avl, Removed, Position, Shape, Counted, Mapped, BookmarksLive, WithoutRow,
           Inserted, Fits, InsertPosition, RowLess, KeyBefore, HasRow, Rank;
      assert allocated(Rows(tree));
      RootIsRoot();
      var newRow := new TableRow(key, cols, hidden);
      if key in rows {
        action := RowModify;
        var row := rows[key];
        MappedHere(key);
        var below := NodeLess(row, newRow);
        var above := NodeLess(newRow, row);
        if !below && !above {
          prevRow := PreviousKey(row);
          return Success, prevRow, action;
        }
      } else {
        action := RowAdd;
      }
      prevRow := ReplaceRow(newRow);
      er := Success;
    }

    // Delete the row with the key of the new one, if there is one, add the new one, and let a cursor
    // on the old one follow.
    method ReplaceRow(newRow: TableRow) returns (prevRow: Key)
      requires Valid() && newRow !in Rows(tree) && newRow != root
      requires !newRow.isRoot && newRow.left == null && newRow.right == null
      modifies this`tree, this`rows, this`current, this`bookmarks, newRow
      modifies root`left, root`right, root`height, root`branchCount
      modifies Rows(tree)`left, Rows(tree)`right, Rows(tree)`parent, Rows(tree)`isLeft, Rows(tree)`height,
          Rows(tree)`branchCount
      ensures Valid() && rows == old(rows)[newRow.key := newRow] && HasRow(Order(), newRow)
      ensures var base, p := old(OrderWithout(newRow.key)), Position(Order(), newRow);
              && 0 <= p <= |base| && Fits(collate, base, p, newRow.cols)
              && Order() == Inserted(base, p, Entry(newRow, old(newRow.hidden)))
              && prevRow == KeyBefore(base, p)
      ensures if newRow.key in old(rows) then
                var row := old(rows[newRow.key]);
                && bookmarks == WithoutRow(old(bookmarks), row)
                && current == if old(current) == row then newRow else old(current)
              else current == old(current) && bookmarks == old(bookmarks)
    {
      hide MovedOff, SetbackOf, Attached, Visible, Rows, Exact, Plug, InOrder, Avl, Removed, Position, Shape,
           Counted, Mapped, BookmarksLive, WithoutRow, Inserted, Fits, InsertPosition, RowLess, KeyBefore, HasRow, Rank;
      assert allocated(Rows(tree));
      var relocateCursor := false;
      if newRow.key in rows {
        MappedHere(newRow.key);
        relocateCursor := rows[newRow.key] == current;
        var e := DeleteRow(newRow.key);
      }
      prevRow := AddRow(newRow);
      if relocateCursor {
        current := newRow;
      }
    }

    // Put a fresh row with a new key into the table.
    method AddRow(newRow: TableRow) returns (prevRow: Key)
      requires Valid() && newRow.key !in rows && newRow !in Rows(tree) && newRow != root
      requires !newRow.isRoot && newRow.left == null && newRow.right == null
      modifies this`tree, this`rows, newRow, root`left, root`right, root`height, root`branchCount
      modifies Rows(tree)`left, Rows(tree)`right, Rows(tree)`parent, Rows(tree)`isLeft, Rows(tree)`height,
          Rows(tree)`branchCount
      ensures Valid() && rows == old(rows)[newRow.key := newRow] && newRow in Rows(tree) && HasRow(Order(), newRow)
      ensures var base, p := old(Order()), Position(Order(), newRow);
              && 0 <= p <= |base| && Fits(collate, base, p, newRow.cols)
              && Order() == Inserted(base, p, Entry(newRow, old(newRow.hidden)))
              && prevRow == KeyBefore(base, p)
    {
      hide Rows, Exact, Plug, InOrder, Avl, Position, Shape, Counted, Mapped, BookmarksLive, Inserted, Fits,
           InsertPosition, RowLess, KeyBefore, HasRow, Rank;
      ghost var p := InsertPosition(collate, tree, newRow.cols);
      ghost var e := Entry(newRow, newRow.hidden);
      InsertPositionFits(collate, tree, newRow.cols);
      MappedWith(rows, Rows(tree), newRow);
      BookmarksMore(bookmarks, bookmarkPosition, Rows(tree) + {root}, Rows(tree) + {newRow} + {root});
      prevRow := InsertRow(newRow);
      InsertedRow(old(Order()), p, e);
    }

    lemma {:induction false} MappedHere(key: Key)
      requires Valid() && key in rows
      ensures rows[key] in Rows(tree) && rows[key].key == key && !rows[key].isRoot && HasRow(Order(), rows[key])
      ensures OrderWithout(key) == Removed(Order(), Position(Order(), rows[key]))
    {
      RootIsRoot();
      RowsInOrder(tree);
    }

    lemma {:induction false} InsertedRow(base: seq<Entry>, p: nat, e: Entry)
      requires Shape() && p <= |base| && Order() == Inserted(base, p, e)
      ensures HasRow(Order(), e.row) && Position(Order(), e.row) == p
      ensures Order()[p] == e
    {
      DistinctNoRepeats(tree);
      PositionAt(Order(), p);
    }

    lemma {:induction false} KeysDistinct()
      requires Valid()
      ensures forall i :: 0 <= i < |Order()| ==> HasRow(Order(), Order()[i].row) && Order()[i].row in Rows(tree)
      ensures forall i :: 0 <= i < |Order()| ==>
                Order()[i].row.key in rows && rows[Order()[i].row.key] == Order()[i].row
      ensures forall i, j :: 0 <= i < j < |Order()| ==> Order()[i].row.key != Order()[j].row.key
    {
      hide InOrder, Rows, Shape, Counted, Avl, BookmarksLive, Live;
      RowsInOrder(tree);
      ShapeOrder();
      forall i | 0 <= i < |Order()|
        ensures HasRow(Order(), Order()[i].row) && Order()[i].row in Rows(tree)
      {
        assert HasRow(Order(), Order()[i].row);
      }
    }

    // The list of rows this table stands for, and what is to become of it.
    lemma {:induction false} ListOfOrder(key: Key, cols: Cols)
      requires Valid()
      ensures key in rows <==> TableSpec.HasKey(TableSpec.View(Order()), key)
      ensures TableSpec.View(OrderWithout(key)) == TableSpec.RemoveKey(TableSpec.View(Order()), key)
      ensures SameRow(key, cols) <==> TableSpec.HasEqual(collate, TableSpec.View(Order()), key, cols)
    {
      hide InOrder, Rows, Shape, Counted, Avl, Mapped, BookmarksLive, Live, RowLess, Removed, Valid,
           TableSpec.RemoveKey, Rank;
      KeysDistinct();
      ghost var s, v := Order(), TableSpec.View(Order());
      if key in rows {
        MappedHere(key);
        ghost var p := IndexOf(s, rows[key]);
        assert v[p] == TableSpec.RowOf(s[p]);
        TableSpec.RemoveRefines(s, p);
        OnlyWithKey(key, p);
      } else {
        forall i | 0 <= i < |v|
          ensures v[i].key != key
        {
          assert v[i] == TableSpec.RowOf(s[i]);
        }
        TableSpec.RemoveAbsent(v, key);
      }
    }

    lemma {:induction false} OnlyWithKey(key: Key, p: nat)
      requires Valid() && key in rows && p < |Order()| && Order()[p].row == rows[key]
      ensures var v := TableSpec.View(Order());
              v[p].key == key && v[p].cols == rows[key].cols && forall i :: 0 <= i < |v| && v[i].key == key ==> i == p
    {
      hide InOrder, Rows, Shape, Counted, Avl, BookmarksLive, Live, Valid;
      KeysDistinct();
      MappedHere(key);
      ghost var s, v := Order(), TableSpec.View(Order());
      assert v[p] == TableSpec.RowOf(s[p]);
      forall i | 0 <= i < |v| && v[i].key == key
        ensures i == p
      {
        assert v[i] == TableSpec.RowOf(s[i]);
      }
    }

    method UpdateRow(update: UpdateType, key: Key, cols: Cols, hidden: bool) returns (er: Status, prevRow: Key)
      requires Valid()
      modifies this`tree, this`rows, this`current, this`bookmarks, root`left, root`right, root`height, root`branchCount
      modifies Rows(tree)`left, Rows(tree)`right, Rows(tree)`parent, Rows(tree)`isLeft, Rows(tree)`height,
          Rows(tree)`branchCount
      ensures Valid()
      ensures er == if update == RowDelete && key !in old(rows) then NotFound else Success
      ensures update == RowDelete && key in old(rows) ==> Order() == old(OrderWithout(key)) && rows == old(rows) - {key}
      ensures (update == RowModify || update == RowAdd) && !old(SameRow(key, cols)) ==>
                var base := old(OrderWithout(key));
                && key in rows && rows == old(rows)[key := rows[key]] && rows[key].cols == cols
                && var p := Position(Order(), rows[key]);
                   0 <= p <= |base| && Fits(collate, base, p, cols)
                       && Order() == Inserted(base, p, Entry(rows[key], hidden)) && prevRow == KeyBefore(base, p)
      ensures update == OtherUpdate || (update == RowDelete && key !in old(rows))
                || (update != RowDelete && old(SameRow(key, cols))) ==>
                tree == old(tree) && rows == old(rows) && current == old(current) && bookmarks == old(bookmarks)
      ensures (update == RowModify || update == RowAdd) && old(SameRow(key, cols)) ==>
                key in rows && prevRow == KeyBefore(Order(), Position(Order(), rows[key]))
      ensures update == RowModify || update == RowAdd ==>
                && key in rows
                && if key in old(rows) && TableSpec.Alike(collate, old(rows)[key].cols, cols) then
                     tree == old(tree) && rows == old(rows)
                   else rows[key].cols == cols
      ensures update == RowDelete && key in old(rows) ==>
                && bookmarks == WithoutRow(old(bookmarks), old(rows[key]))
                && if old(current) != old(rows[key]) then current == old(current)
                   else MovedOff(old(Rank(Order(), current)), old(SetbackOf(tree, false, rows[key])))
      ensures (update == RowModify || update == RowAdd) && !old(SameRow(key, cols)) ==>
                if key in old(rows) then
                  && bookmarks == WithoutRow(old(bookmarks), old(rows[key]))
                  && current == if old(current) == old(rows[key]) then rows[key] else old(current)
                else current == old(current) && bookmarks == old(bookmarks)
      ensures forall r :: r in Rows(tree) ==> r in old(Rows(tree)) || fresh(r)
      ensures forall schema ::
                TotalPreorder(collate) && TableSpec.Ordered(collate, schema, old(TableSpec.View(Order())))
                               && TableSpec.Builds(schema, Meaning(update, key, cols, hidden)) ==>
                TableSpec.View(Order()) == TableSpec.Apply(collate, old(TableSpec.View(Order())),
                    Meaning(update, key, cols, hidden))
    {
      hide Rows, Exact, Plug, InOrder, Avl, Removed, Position, Shape, Counted, Mapped, BookmarksLive, Inserted, Fits,
           RowLess, KeyBefore, HasRow, Rank, WithoutRow, Attached, MovedOff, SetbackOf;
      prevRow := NO_KEY;
      if key in rows {
        MappedHere(key);
      }
      ListOfOrder(key, cols);
      ghost var base, same, before := OrderWithout(key), SameRow(key, cols), rows;
      match update {
        case RowDelete =>
          er := DeleteRow(key);
        case RowModify =>
          var action;
          er, prevRow, action := ModifyRow(key, cols, hidden);
        case RowAdd =>
          var action;
          er, prevRow, action := ModifyRow(key, cols, hidden);
        case OtherUpdate =>
          er := Success;
      }
      RowsOfMap(before, old(Rows(tree)), rows, Rows(tree), key);
      if (update == RowModify || update == RowAdd) && !same {
        MappedHere(key);
        TableSpec.PutRefines(collate, old(Order()), base, Position(Order(), rows[key]), Entry(rows[key], hidden));
      }
    }

    // Replace one sort column of a row; the row keeps its hidden flag.
    method UpdatePartialSortKey(key: Key, column: nat, col: SortCol) returns (er: Status, prevRow: Key, hidden: bool)
      requires Valid()
      modifies this`tree, this`rows, this`current, this`bookmarks, root`left, root`right, root`height, root`branchCount
      modifies Rows(tree)`left, Rows(tree)`right, Rows(tree)`parent, Rows(tree)`isLeft, Rows(tree)`height,
          Rows(tree)`branchCount
      ensures Valid()
      ensures er == if key !in old(rows) then NotFound
                    else if column >= |old(rows)[key].cols| then InvalidParameter
                    else Success
      ensures er != Success || (key in old(rows) && old(SameRow(key, rows[key].cols[column := col]))) ==>
                tree == old(tree) && rows == old(rows) && current == old(current) && bookmarks == old(bookmarks)
      ensures er == Success && old(SameRow(key, rows[key].cols[column := col])) ==>
                prevRow == KeyBefore(Order(), Position(Order(), rows[key]))
      ensures er == Success && !old(SameRow(key, rows[key].cols[column := col])) ==>
                var base, row, cols := old(OrderWithout(key)), old(rows[key]), old(rows[key].cols[column := col]);
                && key in rows && rows == old(rows)[key := rows[key]] && rows[key].cols == cols
                && bookmarks == WithoutRow(old(bookmarks), row)
                && current == (if old(current) == row then rows[key] else old(current))
                && var p := Position(Order(), rows[key]);
                   0 <= p <= |base| && Fits(collate, base, p, cols)
                       && Order() == Inserted(base, p, Entry(rows[key], hidden)) && prevRow == KeyBefore(base, p)
      ensures er == Success ==>
                var before, cols := old(rows)[key].cols, old(rows)[key].cols[column := col];
                && key in rows
                && if TableSpec.Alike(collate, before, cols) then tree == old(tree) && rows == old(rows)
                   else rows[key].cols == cols
      ensures forall r :: r in Rows(tree) ==> r in old(Rows(tree)) || fresh(r)
      ensures er == Success ==> rows.Keys == old(rows.Keys) && hidden == old(rows[key].hidden)
      ensures er == Success ==>
                var u := TableSpec.Put(TableSpec.Row(key, old(rows)[key].cols[column := col], hidden));
                forall schema ::
                    TotalPreorder(collate) && TableSpec.Ordered(collate, schema, old(TableSpec.View(Order())))
                    && TableSpec.Builds(schema, u) ==>
                  TableSpec.View(Order()) == TableSpec.Apply(collate, old(TableSpec.View(Order())), u)
    {
      hide Rows, Exact, Plug, InOrder, Avl, Removed, Position, Shape, Counted, Mapped, BookmarksLive, Inserted, Fits,
           RowLess, KeyBefore, HasRow, Rank, WithoutRow;
      prevRow, hidden := NO_KEY, false;
      if key !in rows {
        return NotFound, prevRow, hidden;
      }
      var row := rows[key];
      if column >= |row.cols| {
        return InvalidParameter, prevRow, hidden;
      }
      hidden := row.hidden;
      er, prevRow := UpdateRow(RowModify, key, row.cols[column := col], hidden);
    }

    method SeekId(key: Key) returns (er: Status)
      requires Valid()
      modifies this`current
      ensures Valid()
      ensures er == if key in rows then Success else NotFound
      ensures current == if key in rows then rows[key] else old(current)
    {
      if key !in rows {
        return NotFound;
      }
      current := rows[key];
      er := Success;
    }

    method CreateBookmark() returns (er: Status, bookmark: nat)
      requires Valid()
      modifies this`bookmarks, this`bookmarkPosition
      ensures Valid()
      ensures |old(bookmarks)| >= BOOKMARK_LIMIT ==> er == UnableToComplete && bookmarks == old(bookmarks)
      ensures |old(bookmarks)| < BOOKMARK_LIMIT ==>
                && er == Success && bookmark !in old(bookmarks)
                && bookmarks == old(bookmarks)[bookmark := Bookmark(Rank(Order(), current), current)]
    {
      hide Shape, Counted, Avl, Rank, Position, InOrder, Rows;
      if |bookmarks| >= BOOKMARK_LIMIT {
        return UnableToComplete, 0;
      }
      LiveAttached(current);
      assert allocated(Rows(tree));
      var rowCount, firstRow := GetRowCount();
      bookmark := bookmarkPosition;
      bookmarkPosition := bookmarkPosition + 1;
      bookmarks := bookmarks[bookmark := Bookmark(firstRow, current)];
      er := Success;
    }

    method FreeBookmark(bookmark: nat) returns (er: Status)
      requires Valid()
      modifies this`bookmarks
      ensures Valid()
      ensures er == if bookmark in old(bookmarks) then Success else InvalidBookmark
      ensures bookmarks == old(bookmarks) - {bookmark}
    {
      hide Shape, Counted, Avl, Mapped, Rows;
      if bookmark !in bookmarks {
        assert bookmarks == bookmarks - {bookmark};
        return InvalidBookmark;
      }
      bookmarks := bookmarks - {bookmark};
      er := Success;
    }

    // Delete every row, leaves first.
    method Clear()
      requires Valid()
      modifies this`tree, this`rows, this`current, this`bookmarks, root`left, root`right, root`branchCount
      modifies Rows(tree)`left, Rows(tree)`right, Rows(tree)`parent, Rows(tree)`isLeft
      ensures Valid() && Order() == [] && Rows(tree) == {} && rows == map[] && current == root && bookmarks == map[]
    {
      hide Shape, Exact, Avl, Rows, Count, InOrder;
      DropAllRows();
      current := root;
      root.branchCount := 0;
      rows := map[];
      bookmarks := map[];
      EmptyTree();
    }

    lemma {:induction false} EmptyTree()
      requires tree == Leaf
      ensures Exact(tree) && Count(tree) == 0 && Avl(tree) && Rows(tree) == {} && Order() == []
    {
    }

    method DropAllRows()
      requires Shape()
      modifies this`tree, root`left, root`right
      modifies Rows(tree)`left, Rows(tree)`right, Rows(tree)`parent, Rows(tree)`isLeft
      ensures Shape() && tree == Leaf
    {
      hide Linked, Around, TreeLinked, Distinct, Rows, ContextRows, Opened, Shape, Plug, HangsBelow, InOrder;
      RootIsRoot();
      RootPosition();
      var r := root;
      ghost var k, s := Top, tree;
      PlugTop(tree);
      while true
        invariant Shape() && Rows(tree) <= old(Rows(tree)) && allocated(Rows(tree))
        invariant r != root ==>
                    tree == Plug(k, s) && s.Node? && r == s.entry.row && r.left == Ptr(s.left)
                    && r.right == Ptr(s.right)
        invariant r == root ==> k == Top && s == tree && r.left == null && r.right == Ptr(tree)
        invariant root.isRoot
        decreases |InOrder(tree)|, s, r == root
      {
        if r.left != null {
          r := r.left;
          ChildLinks(k, s);
          k, s := OnLeft(k, s.entry, s.right), s.left;
          ChildLinks(k, s);
        } else if r.right != null {
          if r != root {
            ChildLinks(k, s);
            k, s := OnRight(k, s.left, s.entry), s.right;
          } else {
            PlugTop(tree);
          }
          r := r.right;
          ChildLinks(k, s);
        } else if r == root {
          break;
        } else {
          ChildLinks(k, s);
          OpenShape(k, s);
          LeafRows(k, s);
          var parent: TableRow := r.parent;
          ghost var before := Rows(tree);
          UnlinkRow(r, null, k, s, Leaf);
          tree := Plug(k, Leaf);
          OpenShape(k, Leaf);
          RootPosition();
          r := parent;
          if k.Top? {
            PlugTop(Leaf);
            k, s := Top, tree;
          } else {
            FillTop(k, Leaf);
            s, k := Fill(k, Leaf), k.up;
            ChildLinks(k, s);
          }
        }
      }
    }

    lemma {:induction false} PlugTop(t: Tree)
      ensures Plug(Top, t) == t
    {
    }

    lemma {:induction false} FillTop(c: Context, t: Tree)
      requires !c.Top?
      ensures Plug(c, t) == Plug(c.up, Fill(c, t))
      ensures Fill(c, t).Node? && Fill(c, t).entry.row == ParentOf(c, root)
    {
    }

    lemma {:induction false} LeafRows(c: Context, t: Tree)
      requires Shape() && tree == Plug(c, t) && t.Node? && t.left.Leaf? && t.right.Leaf?
      ensures Rows(Plug(c, Leaf)) <= Rows(tree) && |InOrder(Plug(c, Leaf))| < |InOrder(tree)|
      ensures c.Top? || ParentOf(c, root) in Rows(tree)
      ensures OnlyChild(t, Leaf) && Ptr(Leaf) == null && TopRow(Leaf) == {}
    {
      PlugRows(c, t);
      PlugRows(c, Leaf);
      PlugCount(c, t);
      PlugCount(c, Leaf);
    }

    // -------------------------------------------------------------------------
    // Reading rows

    lemma {:induction false} CursorRow(r: TableRow)
      requires Shape() && r in Rows(tree)
      ensures var p := Position(Order(), r); 0 <= p < |Order()| && Order()[p] == Entry(r, r.hidden) && r != root
    {
      var c, t := Focus(tree, r);
      ChildLinks(c, t);
      PositionHere(c, t);
    }

    // Forward QueryRows: the keys of the next `count` rows from the cursor on, at most as many
    // as there are visible rows.
    method QueryRows(count: nat, noAdvance: bool, showHidden: bool)
        returns (list: seq<Key>, ghost start: nat, ghost stop: nat)
      requires Valid()
      modifies this`current
      ensures Valid()
      ensures start <= stop <= |Order()| && list == Reported(Order(), start, stop, showHidden)
      ensures old(current) != root ==> start == Position(Order(), old(current))
      ensures Visible(Order()[..start]) == Rank(Order(), old(current)) <= Visible(Order())
      ensures var available := if showHidden then |Order()| - start else Visible(Order()) - Rank(Order(), old(current));
              |list| == Min(Min(count, Visible(Order())), available)
      ensures noAdvance ==> current == old(current)
      ensures !noAdvance && Visible(Order()) > 0 ==> Position(Order(), current) == stop && current != root
      ensures Visible(Order()) == 0 && old(current) == root ==> current == root
    {
      hide Shape, Counted, Avl, Rank, Position, InOrder, Rows, Mapped, BookmarksLive, Visible, VisibleKeys, Keys,
           Reported;
      assert allocated(Rows(tree));
      var original := current;
      LiveAttached(current);
      RankEnds();
      RootPosition();
      RankIsVisible(Order(), current);
      if current == root && root.branchCount != 0 {
        var _, _ := SeekRow(SEEK_SET, 0);
        RankIsVisible(Order(), current);
      }
      list, start, stop := CollectRows(Min(count, root.branchCount), showHidden);
      ReportedCount(Order(), start, stop, showHidden, Min(count, root.branchCount));
      if noAdvance {
        current := original;
      }
    }

    method CollectRows(limit: nat, showHidden: bool) returns (list: seq<Key>, ghost start: nat, ghost stop: nat)
      requires Shape() && Live(current) && (current == root ==> limit == 0)
      modifies this`current
      ensures Shape() && Live(current)
      ensures start <= stop <= |Order()| && list == Reported(Order(), start, stop, showHidden)
      ensures |list| <= limit && (|list| == limit || stop == |Order()|)
      ensures old(current) == root ==> current == root && start == 0
      ensures old(current) != root ==>
                start == Position(Order(), old(current)) && current != root && stop == Position(Order(), current)
    {
      hide Shape, Rank, Position, InOrder, Rows, Visible, VisibleKeys, Keys, Reported;
      assert allocated(Rows(tree));
      var left := limit;
      list := [];
      RootPosition();
      if current != root && current != null {
        CursorRow(current);
      }
      RankIsVisible(Order(), current);
      start := if current == root then 0 else Position(Order(), current);
      stop := start;
      NothingReported(Order(), start, showHidden);
      while left > 0 && current != null
        invariant Shape() && Live(current)
        invariant if old(current) == root then current == root && left == 0 && stop == start
                  else current != root && stop == Position(Order(), current)
        invariant start <= stop <= |Order()| && (current == null ==> stop == |Order()|)
        invariant list == Reported(Order(), start, stop, showHidden) && |list| + left == limit
        decreases |Order()| - stop
      {
        CursorRow(current);
        ReportedStep(Order(), start, stop, showHidden);
        if !current.hidden || showHidden {
          list := list + [current.key];
          left := left - 1;
        }
        Next();
        stop := stop + 1;
        RootPosition();
        RankIsVisible(Order(), current);
      }
    }

    lemma {:induction false} NothingReported(s: seq<Entry>, start: nat, showHidden: bool)
      requires start <= |s|
      ensures Reported(s, start, start, showHidden) == []
    {
    }

    // Page after page from the first row on, until a page comes back empty.
    method ReadAll(pages: nat -> nat) returns (list: seq<Key>)
      requires Valid() && forall i :: pages(i) > 0
      modifies this`current
      ensures Valid() && list == VisibleKeys(Order())
      ensures forall i, j :: 0 <= i < j < |list| ==> list[i] != list[j]
    {
      hide Shape, Counted, Avl, Position, InOrder, Rows, Mapped, BookmarksLive, Visible, VisibleKeys, Rank, Reported;
      assert allocated(Rows(tree));
      LiveAttached(current);
      RankEnds();
      var _, _ := SeekRow(SEEK_SET, 0);
      list := [];
      var i := 0;
      RankEnds();
      while true
        invariant Valid()
        invariant |list| == Rank(Order(), current) <= Visible(Order()) && list == VisibleKeys(Order())[..|list|]
        invariant Visible(Order()) > 0 ==> current != root
        decreases Visible(Order()) - |list|
      {
        RankIsVisible(Order(), current);
        var page, start, stop := QueryRows(pages(i), false, false);
        ReportedSlice(Order(), start, stop);
        RankIsVisible(Order(), current);
        if page == [] {
          break;
        }
        list := list + page;
        i := i + 1;
      }
      KeysDistinct();
      VisibleKeysDistinct(Order());
    }

    // The key of the last row that is not hidden before the given one.  The sentinel is never
    // hidden, so before the first such row the result is the empty key.
    method GetPreviousRow(key: Key) returns (er: Status, prev: Key)
      requires Valid()
      modifies this`current
      ensures Valid() && current == old(current)
      ensures er == if key in rows then Success else NotFound
      ensures er == Success ==>
                exists q :: ShownBefore(Order(), Position(Order(), rows[key]), q, prev)
    {
      hide Rows, Shape, Counted, Avl, InOrder, Position, Mapped, BookmarksLive, Rank, HasRow, Visible, RowNumber,
           Attached, Distinct;
      assert allocated(Rows(tree));
      var pos := current;
      prev := NO_KEY;
      er := SeekId(key);
      if er != Success {
        return;
      }
      MappedHere(key);
      CursorRow(current);
      ghost var p := Position(Order(), current);
      Prev();
      ghost var q, order := p, Order();
      while current != null && current.hidden
        invariant Shape() && Counted() && Live(current) && !root.hidden
        invariant 0 <= q <= p && Position(Order(), current) == q - 1 && current != null
        invariant Order() == order && forall i :: q <= i < p ==> order[i].hidden
        decreases q
      {
        CursorRow(current);
        q := q - 1;
        Prev();
      }
      RootPosition();
      if current != root {
        CursorRow(current);
      }
      if current != null {
        prev := current.key;
      } else {
        er := NotFound;
      }
      current := pos;
      assert p == Position(Order(), rows[key]);
      assert ShownBefore(Order(), p, q, prev);
    }

    // -------------------------------------------------------------------------
    // Categories

    // Hide or show the row under the cursor, and count again.
    method SetHidden(row: TableRow, hidden: bool)
      requires Shape() && Counted() && Avl(tree) && row in Rows(tree)
      modifies this`tree, row`hidden, root`height, root`branchCount, Rows(tree)`height, Rows(tree)`branchCount
      ensures Shape() && Counted() && Avl(tree) && Rows(tree) == old(Rows(tree))
      ensures var p := Position(old(Order()), row);
              0 <= p < |old(Order())| && Order() == old(Order())[p := Entry(row, hidden)]
    {
      hide Rows, ContextRows, Opened, KeptPair, PairApart, PairRows, PairInner, Linked, Around, InnerRows, Above,
           Distinct, Shape, Counted, Exact, SiblingsExact, Plug, Avl, InOrder, Position, Rank;
      ghost var c, t := Focus(tree, row);
      ghost var l, r, f := t.left, t.right, Entry(row, hidden);
      RootIsRoot();
      CursorRow(row);
      PositionHere(c, t);
      OpenShape(c, t);
      TakePair(c, l, t.entry, r, root, root);
      NodeApart(c, l, t.entry, r, root);
      ReplaceEntry(c, l, t.entry, r, f);
      ReplaceEntryOrder(c, l, t.entry, r, f);
      ChildLinks(c, t);
      AllCounted(c, t);
      row.hidden := hidden;
      PlacePair(c, l, f, r, root);
      tree := Plug(c, Node(l, f, r));
      OpenShape(c, Node(l, f, r));
      CountedParts(c, l, f, r);
      UpdateCountsInTree(row, OnLeft(c, f, r), l);
    }

    lemma {:induction false} AllCounted(c: Context, t: Tree)
      requires Counted() && tree == Plug(c, t) && t.Node?
      ensures Exact(t.left) && Exact(t.right) && SiblingsExact(c)
    {
      PlugExact(c, t);
    }

    // Hide the category under the header with this key.
    method HideRows(key: Key) returns (er: Status, list: seq<Key>, ghost h: nat, ghost j: nat)
      requires Valid()
      modifies this`tree, this`current, root`height, root`branchCount
      modifies Rows(tree)`hidden, Rows(tree)`height, Rows(tree)`branchCount
      ensures Valid()
      ensures er == if key in rows then Success else NotFound
      ensures er == NotFound ==> tree == old(tree) && current == old(current) && list == []
      ensures er == Success ==>
                && h == Position(old(Order()), rows[key]) && IsBlockEnd(collate, old(Order()), h, j)
                && Order() == Collapsed(old(Order()), h, j) && list == Keys(old(Order())[h + 1..j])
      ensures er == Success ==>
                && |Order()| == |old(Order())| && |list| == j - h - 1
                && (forall i :: 0 <= i < |Order()| ==>
                      Order()[i].row == old(Order())[i].row
                      && Order()[i].hidden == (h < i < j || old(Order())[i].hidden))
                && forall i :: 0 <= i < |list| ==> list[i] == old(Order())[h + 1 + i].row.key
      ensures er == Success ==>
                var p, q := Position(old(Order()), old(current)), Position(Order(), current);
                if h < p < j then j <= q && (forall i :: j <= i < q ==>
                    Order()[i].hidden) && (q == |Order()| || !Order()[q].hidden)
                else current == old(current)
      ensures Rows(tree) == old(Rows(tree)) && SameRows(old(Order()), Order())
      ensures er == Success ==>
                forall schema ::
                    TotalPreorder(collate) && TableSpec.Ordered(collate, schema, old(TableSpec.View(Order()))) ==>
                  IsCategory(collate, old(Order()), h, j) && TableSpec.Ordered(collate, schema, TableSpec.View(Order()))
    {
      hide TotalPreorder, IsCategory, TableSpec.Ordered, Rows, Shape, Counted, Avl, InOrder, Position, Collapsed,
           Keys, Mapped, BookmarksLive, Rank, HasRow, RowLess, IsBlockEnd;
      RootIsRoot();
      assert allocated(Rows(tree));
      list, h, j := [], 0, 0;
      var cursor := current;
      er := SeekId(key);
      if er != Success {
        return;
      }
      MappedHere(key);
      CursorRow(current);
      ghost var order := Order();
      h := Position(order, current);
      var cols := current.cols;
      Next();
      var cursorHidden: bool;
      list, cursorHidden, j := CollapseBlock(cols, cursor, h);
      if !cursorHidden {
        current := cursor;
      } else {
        SkipHidden();
      }
      BlockKeys(order, h, j);
      SortedCategory(order, Order(), h, j);
    }

    lemma {:induction false} BlockKeys(s: seq<Entry>, h: nat, j: nat)
      requires IsBlockEnd(collate, s, h, j)
      ensures h < j <= |s|
      ensures var keys := Keys(s[h + 1..j]);
              |keys| == j - h - 1 && forall i :: 0 <= i < |keys| ==> keys[i] == s[h + 1 + i].row.key
    {
    }

    // In a sorted table the block is the category, and hiding or showing keeps the table sorted.
    lemma {:induction false} SortedCategory(s: seq<Entry>, u: seq<Entry>, h: nat, j: nat)
      requires IsBlockEnd(collate, s, h, j) && SameRows(s, u)
      ensures forall schema :: TotalPreorder(collate) && TableSpec.Ordered(collate, schema, TableSpec.View(s)) ==>
                IsCategory(collate, s, h, j) && TableSpec.Ordered(collate, schema, TableSpec.View(u))
    {
      hide TotalPreorder, IsCategory, TableSpec.Ordered, TableSpec.View, IsBlockEnd, SameRows;
      forall schema | TotalPreorder(collate) && TableSpec.Ordered(collate, schema, TableSpec.View(s))
        ensures IsCategory(collate, s, h, j) && TableSpec.Ordered(collate, schema, TableSpec.View(u))
      {
        TableSpec.ViewSorted(collate, schema, s);
        BlockIsCategory(collate, schema, s, h, j);
        TableSpec.HidingKeepsOrdered(collate, schema, s, u);
      }
    }

    // From the row after the header on: hide until the leading columns are greater.
    method CollapseBlock(cols: Cols, cursor: TableRow?, ghost h: nat)
        returns (list: seq<Key>, cursorHidden: bool, ghost j: nat)
      requires Shape() && Counted() && Avl(tree) && Live(current) && Live(cursor)
      requires h < |Order()| && Position(Order(), current) == h + 1 && cols == Order()[h].row.cols
      modifies this`tree, this`current, root`height, root`branchCount
      modifies Rows(tree)`hidden, Rows(tree)`height, Rows(tree)`branchCount
      ensures Shape() && Counted() && Avl(tree) && Rows(tree) == old(Rows(tree)) && Live(current)
      ensures IsBlockEnd(collate, old(Order()), h, j) && Order() == Collapsed(old(Order()), h, j)
      ensures Position(Order(), current) == j && current != root
                && Position(Order(), cursor) == Position(old(Order()), cursor)
      ensures list == Keys(old(Order())[h + 1..j])
      ensures cursorHidden <==> h < Position(old(Order()), cursor) < j
    {
      hide Rows, Shape, Counted, Avl, InOrder, Position, Rank, Collapsed, Keys, HasRow, RowLess;
      ghost var order := Order();
      ShapeOrder();
      NothingCollapsed(order, h);
      list, cursorHidden, j := [], false, h + 1;
      NullPosition(order, current);
      while current != null
        invariant Shape() && Counted() && Avl(tree) && Rows(tree) == old(Rows(tree)) && Live(current)
                    && allocated(Rows(tree))
        invariant h < j <= |order| && Order() == Collapsed(order, h, j) && Position(Order(), current) == j
        invariant forall i :: h < i < j ==> !RowLess(collate, cols, Prefix(order[i].row.cols, |cols|))
        invariant list == Keys(order[h + 1..j])
        invariant cursorHidden <==> h < Position(order, cursor) < j
        invariant current == null ==> j == |order|
        decreases |order| - j
      {
        RootPosition();
        CursorRow(current);
        var beyond := RowComparePrefix(collate, |cols|, cols, current.cols);
        WholePrefix(cols);
        CollapseStep(order, h, j);
        if beyond {
          break;
        }
        list := list + [current.key];
        ShapeOrder();
        SamePosition(Order(), order, current);
        SetHidden(current, true);
        ShapeOrder();
        SamePosition(Order(), order, current);
        if current == cursor {
          cursorHidden := true;
        }
        OnlyRowAt(order, cursor, current);
        Next();
        j := j + 1;
        NullPosition(Order(), current);
      }
      RootPosition();
      ShapeOrder();
      SamePosition(Order(), order, cursor);
    }

    // The cursor moves on to the next row that is not hidden.
    method SkipHidden()
      requires Shape() && Live(current) && current != root
      modifies this`current
      ensures Shape() && Live(current)
      ensures var q := Position(Order(), current);
              && 0 <= old(Position(Order(), current)) <= q <= |Order()|
              && (forall i :: old(Position(Order(), current)) <= i < q ==> Order()[i].hidden)
              && (q == |Order()| || !Order()[q].hidden)
    {
      hide Rows, Shape, InOrder, Position, Rank;
      assert allocated(Rows(tree));
      ghost var p := Position(Order(), current);
      NullPosition(Order(), current);
      RootPosition();
      if current != null {
        CursorRow(current);
      }
      while current != null && current.hidden
        invariant Shape() && Live(current) && current != root
        invariant p <= Position(Order(), current) <= |Order()|
        invariant current == null ==> Position(Order(), current) == |Order()|
        invariant forall i :: p <= i < Position(Order(), current) ==> Order()[i].hidden
        decreases |Order()| - Position(Order(), current)
      {
        CursorRow(current);
        Next();
        NullPosition(Order(), current);
        RootPosition();
      }
      if current != null {
        CursorRow(current);
      }
    }

    lemma {:induction false} ShapeOrder()
      requires Shape()
      ensures NoRepeats(Order())
    {
      DistinctNoRepeats(tree);
    }

    lemma {:induction false} NothingCollapsed(s: seq<Entry>, h: nat)
      requires h < |s|
      ensures Collapsed(s, h, h + 1) == s && Keys(s[h + 1..h + 1]) == []
    {
    }

    lemma {:induction false} WholePrefix(cols: Cols)
      ensures Prefix(cols, |cols|) == cols
    {
    }

    lemma {:induction false} NullPosition(s: seq<Entry>, r: TableRow?)
      ensures r == null ==> Position(s, r) == |s|
      ensures -1 <= Position(s, r) <= |s|
    {
    }

    // Different cursors stand in different places.
    lemma {:induction false} OnlyRowAt(s: seq<Entry>, a: TableRow?, b: TableRow?)
      requires 0 <= Position(s, b) < |s|
      ensures Position(s, a) == Position(s, b) ==> a == b
    {
    }

    // Show the first layer of the category under the header with this key.
    method UnhideRows(key: Key) returns (er: Status, list: seq<Key>, ghost h: nat, ghost j: nat)
      requires Valid()
      modifies this`tree, this`current, root`height, root`branchCount
      modifies Rows(tree)`hidden, Rows(tree)`height, Rows(tree)`branchCount
      ensures Valid()
      ensures er == if key in rows && !old(rows[key].hidden) then Success else NotFound
      ensures er == NotFound ==>
                tree == old(tree) && list == [] && current == if key in rows then rows[key] else old(current)
      ensures er == Success ==>
                && h == Position(old(Order()), rows[key]) && IsBlockEnd(collate, old(Order()), h, j)
                && Position(Order(), current) == j
                && Order() == if h + 1 == |old(Order())| then old(Order())
                              else Expanded(old(Order()), h, j, |old(Order())[h + 1].row.cols|)
      ensures er == Success ==>
                list == if h + 1 == |old(Order())| then []
                        else Layer(old(Order())[h + 1..j], |old(Order())[h + 1].row.cols|)
      ensures er == Success ==>
                forall i :: 0 <= i < |old(Order())| ==>
                  Order()[i].row == old(Order())[i].row
                  && Order()[i].hidden == (old(Order())[i].hidden
                       && !(h < i < j && |old(Order())[i].row.cols| == |old(Order())[h + 1].row.cols|))
      ensures Rows(tree) == old(Rows(tree)) && SameRows(old(Order()), Order())
      ensures er == Success ==>
                forall schema ::
                    TotalPreorder(collate) && TableSpec.Ordered(collate, schema, old(TableSpec.View(Order()))) ==>
                  IsCategory(collate, old(Order()), h, j) && TableSpec.Ordered(collate, schema, TableSpec.View(Order()))
    {
      hide TotalPreorder, IsCategory, TableSpec.Ordered, Rows, Shape, Counted, Avl, InOrder, Position, Expanded,
           Mapped, BookmarksLive, Rank, HasRow, RowLess, IsBlockEnd;
      RootIsRoot();
      assert allocated(Rows(tree));
      list, h, j := [], 0, 0;
      er := SeekId(key);
      if er != Success {
        return;
      }
      MappedHere(key);
      CursorRow(current);
      h := Position(Order(), current);
      var cols := current.cols;
      if current.hidden {
        return NotFound, [], h, j;
      }
      ghost var order := Order();
      Next();
      NullPosition(Order(), current);
      if current == null {
        j := |Order()|;
        LastRowIsBlock(order, h);
      } else {
        RootPosition();
        CursorRow(current);
        list, j := ExpandBlock(cols, |current.cols|, h);
      }
      SortedCategory(order, Order(), h, j);
    }

    lemma {:induction false} LastRowIsBlock(s: seq<Entry>, h: nat)
      requires h + 1 == |s|
      ensures IsBlockEnd(collate, s, h, |s|)
    {
    }

    method ExpandBlock(cols: Cols, width: nat, ghost h: nat) returns (list: seq<Key>, ghost j: nat)
      requires Shape() && Counted() && Avl(tree) && Live(current)
      requires h < |Order()| && Position(Order(), current) == h + 1 && cols == Order()[h].row.cols
      modifies this`tree, this`current, root`height, root`branchCount
      modifies Rows(tree)`hidden, Rows(tree)`height, Rows(tree)`branchCount
      ensures Shape() && Counted() && Avl(tree) && Rows(tree) == old(Rows(tree)) && Live(current)
      ensures IsBlockEnd(collate, old(Order()), h, j) && Order() == Expanded(old(Order()), h, j, width)
      ensures Position(Order(), current) == j && list == Layer(old(Order())[h + 1..j], width)
    {
      hide Rows, Shape, Counted, Avl, InOrder, Position, Rank, Expanded, HasRow, RowLess, Layer;
      ghost var order := Order();
      ShapeOrder();
      NothingExpanded(order, h, width);
      NoLayer(order, h, width);
      list, j := [], h + 1;
      NullPosition(order, current);
      while current != null
        invariant Shape() && Counted() && Avl(tree) && Rows(tree) == old(Rows(tree)) && Live(current)
                    && allocated(Rows(tree))
        invariant h < j <= |order| && Order() == Expanded(order, h, j, width) && Position(Order(), current) == j
        invariant forall i :: h < i < j ==> !RowLess(collate, cols, Prefix(order[i].row.cols, |cols|))
        invariant list == Layer(order[h + 1..j], width)
        invariant current == null ==> j == |order|
        decreases |order| - j
      {
        RootPosition();
        CursorRow(current);
        var beyond := RowComparePrefix(collate, |cols|, cols, current.cols);
        WholePrefix(cols);
        ExpandStep(order, h, j, width);
        LayerStep(order, h, j, width);
        if beyond {
          break;
        }
        ShapeOrder();
        SamePosition(Order(), order, current);
        if |current.cols| == width {
          list := list + [current.key];
          SetHidden(current, false);
        }
        ShapeOrder();
        SamePosition(Order(), order, current);
        Next();
        j := j + 1;
        NullPosition(Order(), current);
      }
    }

    lemma {:induction false} NoLayer(s: seq<Entry>, h: nat, width: nat)
      requires h < |s|
      ensures Layer(s[h + 1..h + 1], width) == []
    {
    }

    lemma {:induction false} NothingExpanded(s: seq<Entry>, h: nat, width: nat)
      requires h < |s|
      ensures Expanded(s, h, h + 1, width) == s
    {
    }

    // The keys of the header and its category.
    method GetRowsBySortPrefix(key: Key) returns (er: Status, list: seq<Key>, ghost h: nat, ghost j: nat)
      requires Valid()
      modifies this`current
      ensures Valid() && current == old(current)
      ensures er == if key in rows then Success else NotFound
      ensures er == Success ==>
                && h == Position(Order(), rows[key])
                && if RowLess(collate, rows[key].cols, rows[key].cols) then list == []
                   else IsBlockEnd(collate, Order(), h, j) && list == Keys(Order()[h..j])
      ensures er == Success ==>
                forall schema ::
                    TotalPreorder(collate) && TableSpec.Ordered(collate, schema, TableSpec.View(Order())) ==>
                  IsCategory(collate, Order(), h, j) && list == Keys(Order()[h..j])
    {
      hide TotalPreorder, TableSpec.Ordered, Rows, Shape, Counted, Avl, InOrder, Position, Keys, Mapped, BookmarksLive,
           Rank, HasRow, RowLess, IsBlockEnd;
      assert allocated(Rows(tree));
      list, h, j := [], 0, 0;
      var cursor := current;
      er := SeekId(key);
      if er != Success {
        return;
      }
      MappedHere(key);
      CursorRow(current);
      h := Position(Order(), current);
      list, j := CollectBlock(current.cols, h);
      current := cursor;
      forall schema | TotalPreorder(collate) && TableSpec.Ordered(collate, schema, TableSpec.View(Order()))
        ensures IsCategory(collate, Order(), h, j) && list == Keys(Order()[h..j])
      {
        TableSpec.ViewSorted(collate, schema, Order());
        RowLessAsymmetric(collate, schema, Order()[h].row.cols, Order()[h].row.cols);
        BlockIsCategory(collate, schema, Order(), h, j);
      }
    }

    // From the header on: the keys until the leading columns are greater.
    method CollectBlock(cols: Cols, ghost h: nat) returns (list: seq<Key>, ghost j: nat)
      requires Shape() && Live(current)
      requires h < |Order()| && Position(Order(), current) == h && cols == Order()[h].row.cols
      modifies this`current
      ensures Shape()
      ensures if RowLess(collate, cols, cols) then list == []
              else IsBlockEnd(collate, Order(), h, j) && list == Keys(Order()[h..j])
    {
      hide Rows, Shape, Counted, Avl, InOrder, Position, Keys, Mapped, BookmarksLive, Rank, HasRow, RowLess;
      assert allocated(Rows(tree));
      ghost var order := Order();
      list, j := [], h;
      WholePrefix(cols);
      NoKeys(order, h);
      NullPosition(order, current);
      while current != null
        invariant Shape() && Live(current)
        invariant h <= j <= |order| && Position(Order(), current) == j && (current == null ==> j == |order|)
        invariant j > h ==> !RowLess(collate, cols, cols)
        invariant forall i :: h < i < j ==> !RowLess(collate, cols, Prefix(order[i].row.cols, |cols|))
        invariant list == Keys(order[h..j])
        decreases |order| - j
      {
        RootPosition();
        CursorRow(current);
        var beyond := RowComparePrefix(collate, |cols|, cols, current.cols);
        if beyond {
          break;
        }
        KeysStep(order, h, j);
        list := list + [current.key];
        Next();
        j := j + 1;
        NullPosition(order, current);
      }
    }

    lemma {:induction false} NoKeys(s: seq<Entry>, h: nat)
      requires h <= |s|
      ensures Keys(s[h..h]) == []
    {
    }

    lemma {:induction false} KeysStep(s: seq<Entry>, h: nat, j: nat)
      requires h <= j < |s|
      ensures Keys(s[h..j + 1]) == Keys(s[h..j]) + [s[j].row.key]
    {
    }

    // -------------------------------------------------------------------------
    // Searching

    lemma {:induction false} LowerHere(t: Tree, cols: Cols)
      requires t.Node?
      ensures LowerPosition(collate, t, cols) ==
                if RowLess(collate, t.entry.row.cols, cols) then
                  |InOrder(t.left)| + 1 + LowerPosition(collate, t.right, cols)
                else LowerPosition(collate, t.left, cols)
      ensures LowerPosition(collate, Leaf, cols) == 0
    {
    }

    // Put the cursor on the first row that is not less than the sort key.
    method LowerBound(cols: Cols)
      requires Valid()
      modifies this`current
      ensures Valid()
      ensures var p := Position(Order(), current); 0 <= p && Bounds(collate, Order(), p, cols)
      ensures forall schema ::
                TotalPreorder(collate) && RowOk(schema, cols)
                && TableSpec.Ordered(collate, schema, TableSpec.View(Order())) ==>
                IsLowerBound(collate, Order(), Position(Order(), current), cols)
    {
      hide TotalPreorder, RowOk, IsLowerBound, TableSpec.Ordered, Rows, Shape, Counted, Avl, Position, Mapped,
           BookmarksLive, Rank, RowLess, Bounds, InOrder;
      assert allocated(Rows(tree));
      LowerPositionBounds(collate, tree, cols);
      DescendToBound(cols);
      forall schema | TotalPreorder(collate) && RowOk(schema, cols)
          && TableSpec.Ordered(collate, schema, TableSpec.View(Order()))
        ensures IsLowerBound(collate, Order(), Position(Order(), current), cols)
      {
        TableSpec.ViewSorted(collate, schema, Order());
        BoundsIsFirst(collate, schema, Order(), Position(Order(), current), cols);
      }
    }

    method DescendToBound(cols: Cols)
      requires Shape()
      modifies this`current
      ensures Shape() && Live(current) && Position(Order(), current) == LowerPosition(collate, tree, cols)
    {
      hide LowerPosition, Plug, RowLess, Rows, Shape, Position, Rank, HasRow, InOrder, HangsBelow;
      assert allocated(Rows(tree));
      RootPosition();
      ghost var k, s := Top, tree;
      EmptySize();
      PlugTop(tree);
      current := root.right;
      NullPosition(Order(), null);
      while current != null
        invariant Shape()
        invariant tree == Plug(k, s) && Ptr(s) == current
        invariant |Before(k)| + LowerPosition(collate, s, cols) == LowerPosition(collate, tree, cols)
        invariant current == null ==> Position(Order(), current) == LowerPosition(collate, tree, cols)
        decreases s
      {
        ChildLinks(k, s);
        PositionHere(k, s);
        BeforeRight(k, s.left, s.entry);
        LowerHere(s, cols);
        var less := RowCompare(collate, current.cols, cols);
        if less {
          if current.right == null {
            Next();
            break;
          } else {
            current := current.right;
            k, s := OnRight(k, s.left, s.entry), s.right;
          }
        } else if current.left == null {
          break;
        } else {
          current := current.left;
          k, s := OnLeft(k, s.entry, s.right), s.left;
        }
      }
    }

    // The key of the first row equivalent to the sort key.  The cursor stays where it was.
    method Find(cols: Cols) returns (er: Status, key: Key)
      requires Valid()
      modifies this`current
      ensures Valid() && current == old(current)
      ensures er == Success || er == NotFound
      ensures exists p: nat :: Bounds(collate, Order(), p, cols)
                && (er == Success <==> p < |Order()| && !RowLess(collate, cols, Order()[p].row.cols))
                && (er == Success ==> key == Order()[p].row.key)
      ensures forall schema ::
                TotalPreorder(collate) && RowOk(schema, cols)
                && TableSpec.Ordered(collate, schema, TableSpec.View(Order())) ==>
                IsFound(collate, Order(), cols, er == Success, key)
    {
      hide TotalPreorder, RowOk, IsFound, Equivalent, Bounds, TableSpec.Ordered, Rows, Shape, Counted, Avl, Position,
           Mapped, BookmarksLive, Rank, HasRow, RowLess, InOrder;
      assert allocated(Rows(tree));
      er, key := Success, NO_KEY;
      var cursor := current;
      LowerBound(cols);
      ghost var p := Position(Order(), current);
      RootPosition();
      NullPosition(Order(), current);
      if current == null {
        er := NotFound;
      } else {
        CursorRow(current);
        var greater := RowCompare(collate, cols, current.cols);
        if greater {
          er := NotFound;
        } else {
          key := current.key;
        }
      }
      current := cursor;
      forall schema | TotalPreorder(collate) && RowOk(schema, cols)
          && TableSpec.Ordered(collate, schema, TableSpec.View(Order()))
        ensures IsFound(collate, Order(), cols, er == Success, key)
      {
        TableSpec.ViewSorted(collate, schema, Order());
        FindIsComplete(collate, schema, Order(), p, cols, key);
      }
    }
  }
}
