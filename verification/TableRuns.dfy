// Whole runs of calls on a key table.
module TableRuns {
  import opened RowOrder
  import opened TableTree
  import opened KeyTables
  import TableSpec

  datatype Change = Change(update: UpdateType, key: Key, cols: Cols, hidden: bool) {
    function Update(): TableSpec.Update { Meaning(update, key, cols, hidden) }
  }

  function Updates(changes: seq<Change>): (us: seq<TableSpec.Update>)
    ensures |us| == |changes| && forall i :: 0 <= i < |us| ==> us[i] == changes[i].Update()
  {
    seq(|changes|, i requires 0 <= i < |changes| => changes[i].Update())
  }

  // Any run of updates keeps the table valid and shallow; on a sorted table, with rows built to one
  // schema, it turns the table into what the same run makes of a plain sorted list.
  method Replay(t: KeyTable, changes: seq<Change>, ghost schema: seq<ColFlags>)
    requires t.Valid()
    modifies t`tree, t`rows, t`current, t`bookmarks, t.root`left, t.root`right, t.root`height, t.root`branchCount
    modifies Rows(t.tree)`left, Rows(t.tree)`right, Rows(t.tree)`parent, Rows(t.tree)`isLeft, Rows(t.tree)`height,
        Rows(t.tree)`branchCount
    ensures t.Valid() && |t.Order()| + 1 >= Fib(Height(t.tree) + 2)
    ensures TotalPreorder(t.collate) && old(TableSpec.Ordered(t.collate, schema, TableSpec.View(t.Order())))
            && AllBuild(schema, Updates(changes)) ==>
              && TableSpec.Ordered(t.collate, schema, TableSpec.View(t.Order()))
              && TableSpec.View(t.Order()) == TableSpec.Run(t.collate, old(TableSpec.View(t.Order())), Updates(changes))
  {
    hide TableSpec.Ordered, TableSpec.Apply, TotalPreorder, KeyTable.Valid, InOrder, Rows, TableSpec.Builds,
         Fib, Height;
    ghost var us, start := Updates(changes), TableSpec.View(t.Order());
    ghost var sorted := TotalPreorder(t.collate) && TableSpec.Ordered(t.collate, schema, start) && AllBuild(schema, us);
    var i := 0;
    while i < |changes|
      invariant 0 <= i <= |changes| && t.Valid()
      invariant sorted ==> TableSpec.Ordered(t.collate, schema, TableSpec.View(t.Order()))
      invariant sorted ==>
                  TableSpec.Run(t.collate, TableSpec.View(t.Order()), us[i..]) == TableSpec.Run(t.collate, start, us)
      invariant forall r :: r in Rows(t.tree) ==> r in old(Rows(t.tree)) || fresh(r)
    {
      ghost var s := TableSpec.View(t.Order());
      assert us[i..][0] == us[i] && us[i..][1..] == us[i + 1..];
      var _, _ := t.UpdateRow(changes[i].update, changes[i].key, changes[i].cols, changes[i].hidden);
      if sorted {
        TableSpec.ApplyOrdered(t.collate, schema, s, us[i]);
      }
      i := i + 1;
    }
    TableIsShallow(t);
  }

  ghost predicate AllBuild(schema: seq<ColFlags>, us: seq<TableSpec.Update>) {
    forall i :: 0 <= i < |us| ==> TableSpec.Builds(schema, us[i])
  }

  lemma {:induction false} TableIsShallow(t: KeyTable)
    requires t.Valid()
    ensures |t.Order()| + 1 >= Fib(Height(t.tree) + 2)
  {
    AvlHasManyRows(t.tree);
  }

  datatype Call =
    | Update(change: Change)
    | Seek(origin: nat, rows: int)
    | Find(key: Key)
    | Count
    | Read(count: nat, noAdvance: bool, showHidden: bool)
    | Hide(key: Key)
    | Unhide(key: Key)
    | Mark
    | Unmark(bookmark: nat)
    | Bound(cols: Cols)
    | Search(cols: Cols)
    | Previous(key: Key)
    | Prefixed(key: Key)
    | Partial(key: Key, column: nat, col: SortCol)
    | Drop

  // What a call brings in is built to the schema.
  ghost predicate Fitting(schema: seq<ColFlags>, call: Call) {
    && (call.Update? ==> TableSpec.Builds(schema, call.change.Update()))
    && (call.Partial? && call.column < |schema| ==> ColOk(schema[call.column], call.col))
  }

  // The table is sorted, and so will it be.
  ghost predicate Sortable(t: KeyTable, schema: seq<ColFlags>)
    reads t`tree
  {
    TotalPreorder(t.collate) && TableSpec.Ordered(t.collate, schema, TableSpec.View(t.Order()))
  }

  // Whatever is called in whatever order, the table stays a balanced, exactly counted and linked
  // tree, its cursor and bookmarks on live rows; and if it was sorted and all that is brought in is
  // built to one schema, it stays sorted.
  method Perform(t: KeyTable, calls: seq<Call>, ghost schema: seq<ColFlags>)
    requires t.Valid()
    modifies t, t.root, Rows(t.tree)
    ensures t.Valid() && |t.Order()| + 1 >= Fib(Height(t.tree) + 2)
    ensures old(Sortable(t, schema)) && (forall i :: 0 <= i < |calls| ==> Fitting(schema, calls[i])) ==>
              Sortable(t, schema)
  {
    hide Sortable, Fitting, KeyTable.Valid, InOrder, Rows, Fib, Height;
    ghost var sorted := Sortable(t, schema) && forall i :: 0 <= i < |calls| ==> Fitting(schema, calls[i]);
    for i := 0 to |calls|
      invariant t.Valid() && (sorted ==> Sortable(t, schema))
      invariant forall r :: r in Rows(t.tree) ==> r in old(Rows(t.tree)) || fresh(r)
    {
      PerformOne(t, calls[i], schema);
    }
    TableIsShallow(t);
  }

  lemma {:induction false} NothingOrdered(collate: Collator, schema: seq<ColFlags>, s: seq<Entry>)
    requires s == []
    ensures TableSpec.Ordered(collate, schema, TableSpec.View(s))
  {
  }

  method Sought(t: KeyTable, origin: nat, rows: int)
    requires t.Valid()
    modifies t`current
    ensures t.Valid()
  {
    hide KeyTable.Shape, KeyTable.Counted, Avl, Rows, InOrder, Rank, Position, Visible, Mapped;
    t.LiveAttached(t.current);
    assert allocated(Rows(t.tree));
    var _, _ := t.SeekRow(origin, rows);
  }

  method Counted(t: KeyTable)
    requires t.Valid()
    ensures t.Valid()
  {
    hide KeyTable.Shape, KeyTable.Counted, Avl, Rows, InOrder, Rank, Position, Visible, Mapped;
    t.LiveAttached(t.current);
    assert allocated(Rows(t.tree));
    var _, _ := t.GetRowCount();
  }

  lemma {:induction false} PartialFits(t: KeyTable, schema: seq<ColFlags>, key: Key, column: nat, col: SortCol,
      hidden: bool)
    requires t.Valid() && TableSpec.Ordered(t.collate, schema, TableSpec.View(t.Order()))
    requires column < |schema| ==> ColOk(schema[column], col)
    ensures key in t.rows && column < |t.rows[key].cols| ==>
              TableSpec.Builds(schema, TableSpec.Put(TableSpec.Row(key, t.rows[key].cols[column := col], hidden)))
  {
    hide Rows, InOrder, KeyTable.Shape, KeyTable.Counted, Avl, Mapped, BookmarksLive, ColOk, RowLess;
    if key in t.rows {
      t.MappedHere(key);
      ghost var p := IndexOf(t.Order(), t.rows[key]);
      assert TableSpec.View(t.Order())[p] == TableSpec.RowOf(t.Order()[p]);
    }
  }

  method PerformOne(t: KeyTable, call: Call, ghost schema: seq<ColFlags>)
    requires t.Valid()
    modifies t, t.root, Rows(t.tree)
    ensures t.Valid()
    ensures old(Sortable(t, schema)) && Fitting(schema, call) ==> Sortable(t, schema)
    ensures forall r :: r in Rows(t.tree) ==> r in old(Rows(t.tree)) || fresh(r)
  {
    hide TableSpec.Ordered, TableSpec.Apply, TotalPreorder, KeyTable.Valid, InOrder, Rows, TableSpec.Builds, ColOk;
    ghost var s, sorted := t.Order(), Sortable(t, schema) && Fitting(schema, call);
    match call {
      case Update(c) =>
        var _, _ := t.UpdateRow(c.update, c.key, c.cols, c.hidden);
        if sorted {
          TableSpec.ApplyOrdered(t.collate, schema, TableSpec.View(s), c.Update());
        }
      case Seek(origin, rows) =>
        Sought(t, origin, rows);
      case Find(key) =>
        var _ := t.SeekId(key);
      case Count =>
        Counted(t);
      case Read(count, noAdvance, showHidden) =>
        var _, _, _ := t.QueryRows(count, noAdvance, showHidden);
      case Hide(key) =>
        var _, _, _, _ := t.HideRows(key);
        if sorted {
          TableSpec.HidingKeepsOrdered(t.collate, schema, s, t.Order());
        }
      case Unhide(key) =>
        var _, _, _, _ := t.UnhideRows(key);
        if sorted {
          TableSpec.HidingKeepsOrdered(t.collate, schema, s, t.Order());
        }
      case Mark =>
        var _, _ := t.CreateBookmark();
      case Unmark(bookmark) =>
        var _ := t.FreeBookmark(bookmark);
      case Bound(cols) =>
        t.LowerBound(cols);
      case Search(cols) =>
        var _, _ := t.Find(cols);
      case Previous(key) =>
        var _, _ := t.GetPreviousRow(key);
      case Prefixed(key) =>
        var _, _, _, _ := t.GetRowsBySortPrefix(key);
      case Partial(key, column, col) =>
        ghost var cols := if key in t.rows then t.rows[key].cols else [];
        if sorted {
          PartialFits(t, schema, key, column, col, key in t.rows && t.rows[key].hidden);
        }
        var er, _, hidden := t.UpdatePartialSortKey(key, column, col);
        if sorted && er == Success {
          ghost var u := TableSpec.Put(TableSpec.Row(key, cols[column := col], hidden));
          assert TableSpec.Builds(schema, u);
          assert TableSpec.View(t.Order()) == TableSpec.Apply(t.collate, TableSpec.View(s), u);
          TableSpec.ApplyOrdered(t.collate, schema, TableSpec.View(s), u);
        } else if er != Success {
          assert t.Order() == s;
        }
      case Drop =>
        t.Clear();
        NothingOrdered(t.collate, schema, t.Order());
    }
  }
}
