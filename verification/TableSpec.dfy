// The key table without its tree: a list of rows kept in order by the simplest means.
module TableSpec {
  import opened RowOrder
  import opened TableTree

  datatype Row = Row(key: Key, cols: Cols, hidden: bool)

  datatype Update = Put(row: Row) | Delete(key: Key) | Nothing

  function InsertRow(collate: Collator, s: seq<Row>, r: Row): seq<Row> {
    if s == [] || RowLess(collate, r.cols, s[0].cols) then [r] + s
    else [s[0]] + InsertRow(collate, s[1..], r)
  }

  function RemoveKey(s: seq<Row>, key: Key): seq<Row> {
    if s == [] then [] else if s[0].key == key then RemoveKey(s[1..], key) else [s[0]] + RemoveKey(s[1..], key)
  }

  // Whether a row of this key is there and compares equal to these columns.
  predicate HasEqual(collate: Collator, s: seq<Row>, key: Key, cols: Cols) {
    exists i :: 0 <= i < |s| && s[i].key == key && !RowLess(collate, s[i].cols, cols)
        && !RowLess(collate, cols, s[i].cols)
  }

  function Apply(collate: Collator, s: seq<Row>, u: Update): seq<Row> {
    match u
    case Nothing => s
    case Delete(key) => RemoveKey(s, key)
    case Put(r) => if HasEqual(collate, s, r.key, r.cols) then s else InsertRow(collate, RemoveKey(s, r.key), r)
  }

  function Run(collate: Collator, s: seq<Row>, us: seq<Update>): seq<Row>
    decreases |us|
  {
    if us == [] then s else Run(collate, Apply(collate, s, us[0]), us[1..])
  }

  // Sorted, no key twice, all rows built to the schema.
  ghost predicate Ordered(collate: Collator, schema: seq<ColFlags>, s: seq<Row>) {
    && (forall i, j :: 0 <= i < j < |s| ==> !RowLess(collate, s[j].cols, s[i].cols) && s[i].key != s[j].key)
    && (forall i :: 0 <= i < |s| ==> RowOk(schema, s[i].cols))
  }

  ghost predicate Builds(schema: seq<ColFlags>, u: Update) { u.Put? ==> RowOk(schema, u.row.cols) }

  // ---------------------------------------------------------------------------
  // Reading the rows of a tree as such a list

  ghost function View(s: seq<Entry>): (v: seq<Row>)
    ensures |v| == |s| && forall i :: 0 <= i < |s| ==> v[i] == RowOf(s[i])
  {
    seq(|s|, i requires 0 <= i < |s| => RowOf(s[i]))
  }

  function RowOf(e: Entry): Row { Row(e.row.key, e.row.cols, e.hidden) }

  lemma {:induction false} ViewSorted(collate: Collator, schema: seq<ColFlags>, s: seq<Entry>)
    requires Ordered(collate, schema, View(s))
    ensures Sorted(collate, s) && Conforming(schema, s)
  {
    forall i, j | 0 <= i < j < |s|
      ensures !RowLess(collate, s[j].row.cols, s[i].row.cols)
    {
      assert View(s)[i] == RowOf(s[i]) && View(s)[j] == RowOf(s[j]);
    }
    forall i | 0 <= i < |s|
      ensures RowOk(schema, s[i].row.cols)
    {
      assert View(s)[i] == RowOf(s[i]);
    }
  }

  // Hiding and showing rows does not disturb the order.
  lemma {:induction false} HidingKeepsOrdered(collate: Collator, schema: seq<ColFlags>, s: seq<Entry>, t: seq<Entry>)
    requires SameRows(s, t) && Ordered(collate, schema, View(s))
    ensures Ordered(collate, schema, View(t))
  {
    forall i | 0 <= i < |s|
      ensures View(t)[i].key == View(s)[i].key && View(t)[i].cols == View(s)[i].cols
    {
    }
  }

  lemma {:induction false} RemoveRefines(s: seq<Entry>, p: nat)
    requires p < |s| && forall i, j :: 0 <= i < j < |s| ==> s[i].row.key != s[j].row.key
    ensures View(Removed(s, p)) == RemoveKey(View(s), s[p].row.key)
  {
    var v := View(s);
    assert v[p].key == s[p].row.key;
    RemoveIsAt(v, p);
    assert View(Removed(s, p)) == v[..p] + v[p + 1..];
  }

  lemma {:induction false} AddRefines(collate: Collator, schema: seq<ColFlags>, s: seq<Entry>, p: nat, e: Entry)
    requires TotalPreorder(collate) && Ordered(collate, schema, View(s)) && RowOk(schema, e.row.cols)
    requires p <= |s| && Fits(collate, s, p, e.row.cols)
    ensures View(Inserted(s, p, e)) == InsertRow(collate, View(s), RowOf(e))
  {
    hide Ordered, Sorted, Conforming, RowLess, RowOk, TotalPreorder, InsertRow, Fits;
    ViewSorted(collate, schema, s);
    FitsIsUpperBound(collate, schema, s, p, e.row.cols);
    var v := View(s);
    forall i | 0 <= i < |s|
      ensures v[i].cols == s[i].row.cols
    {
    }
    InsertIsAt(collate, v, RowOf(e), p);
    assert View(Inserted(s, p, e)) == v[..p] + [RowOf(e)] + v[p..];
  }

  // Putting a row in at a fitting place of what is left without its key is the list's Put.
  lemma {:induction false} PutRefines(collate: Collator, s: seq<Entry>, base: seq<Entry>, p: nat, e: Entry)
    requires View(base) == RemoveKey(View(s), e.row.key) && !HasEqual(collate, View(s), e.row.key, e.row.cols)
    requires p <= |base| && Fits(collate, base, p, e.row.cols)
    ensures forall schema ::
              TotalPreorder(collate) && Ordered(collate, schema, View(s)) && Builds(schema, Put(RowOf(e))) ==>
              View(Inserted(base, p, e)) == Apply(collate, View(s), Put(RowOf(e)))
  {
    hide Ordered, RowLess, RowOk, TotalPreorder, InsertRow, RemoveKey, HasEqual, Fits, Inserted;
    forall schema | TotalPreorder(collate) && Ordered(collate, schema, View(s)) && Builds(schema, Put(RowOf(e)))
      ensures View(Inserted(base, p, e)) == Apply(collate, View(s), Put(RowOf(e)))
    {
      RemoveOrdered(collate, schema, View(s), e.row.key);
      AddRefines(collate, schema, base, p, e);
    }
  }

  // ---------------------------------------------------------------------------
  // The list operations

  lemma {:induction false} InsertContents(collate: Collator, s: seq<Row>, r: Row)
    ensures multiset(InsertRow(collate, s, r)) == multiset(s) + multiset{r}
  {
    if s == [] || RowLess(collate, r.cols, s[0].cols) {
      assert multiset([r] + s) == multiset([r]) + multiset(s);
    } else {
      InsertContents(collate, s[1..], r);
      assert s == [s[0]] + s[1..];
    }
  }

  lemma {:induction false} RemoveContents(s: seq<Row>, key: Key)
    ensures forall x :: multiset(RemoveKey(s, key))[x] == if x.key == key then 0 else multiset(s)[x]
  {
    if s != [] {
      RemoveContents(s[1..], key);
      assert s == [s[0]] + s[1..];
    }
  }

  // The place a list insertion chooses is the one after every row the new one is not less than.
  lemma {:induction false} InsertIsAt(collate: Collator, s: seq<Row>, r: Row, p: nat)
    requires p <= |s|
    requires forall i :: 0 <= i < p ==> !RowLess(collate, r.cols, s[i].cols)
    requires p < |s| ==> RowLess(collate, r.cols, s[p].cols)
    ensures InsertRow(collate, s, r) == s[..p] + [r] + s[p..]
  {
    if p > 0 {
      InsertIsAt(collate, s[1..], r, p - 1);
      assert s[..p] == [s[0]] + s[1..][..p - 1];
      assert s[p..] == s[1..][p - 1..];
    }
  }

  lemma {:induction false} RemoveIsAt(s: seq<Row>, p: nat)
    requires p < |s| && forall i, j :: 0 <= i < j < |s| ==> s[i].key != s[j].key
    ensures RemoveKey(s, s[p].key) == s[..p] + s[p + 1..]
  {
    if p == 0 {
      RemoveAbsent(s[1..], s[0].key);
    } else {
      RemoveIsAt(s[1..], p - 1);
      assert s[..p] == [s[0]] + s[1..][..p - 1];
      assert s[p + 1..] == s[1..][p..];
    }
  }

  lemma {:induction false} RemoveAbsent(s: seq<Row>, key: Key)
    requires forall i :: 0 <= i < |s| ==> s[i].key != key
    ensures RemoveKey(s, key) == s
  {
    if s != [] {
      RemoveAbsent(s[1..], key);
    }
  }

  lemma {:induction false} RemoveOrdered(collate: Collator, schema: seq<ColFlags>, s: seq<Row>, key: Key)
    requires Ordered(collate, schema, s)
    ensures Ordered(collate, schema, RemoveKey(s, key))
    ensures forall i :: 0 <= i < |RemoveKey(s, key)| ==> RemoveKey(s, key)[i] in s && RemoveKey(s, key)[i].key != key
  {
    if p :| 0 <= p < |s| && s[p].key == key {
      RemoveIsAt(s, p);
    } else {
      RemoveAbsent(s, key);
    }
  }

  lemma {:induction false} InsertOrdered(collate: Collator, schema: seq<ColFlags>, s: seq<Row>, r: Row)
    requires TotalPreorder(collate) && Ordered(collate, schema, s) && RowOk(schema, r.cols)
    requires forall i :: 0 <= i < |s| ==> s[i].key != r.key
    ensures Ordered(collate, schema, InsertRow(collate, s, r))
  {
    if s == [] {
    } else if RowLess(collate, r.cols, s[0].cols) {
      forall j | 0 <= j < |s|
        ensures !RowLess(collate, s[j].cols, r.cols)
      {
        RowLessAsymmetric(collate, schema, r.cols, s[0].cols);
        if j > 0 {
          RowNotGreaterTransitive(collate, schema, r.cols, s[0].cols, s[j].cols);
        }
      }
    } else {
      InsertOrdered(collate, schema, s[1..], r);
      InsertContents(collate, s[1..], r);
      var t := InsertRow(collate, s[1..], r);
      forall j | 0 <= j < |t|
        ensures !RowLess(collate, t[j].cols, s[0].cols) && t[j].key != s[0].key
      {
        assert t[j] in multiset(t);
        if t[j] != r {
          assert t[j] in s[1..];
        }
      }
    }
  }

  // Every run of updates keeps the table sorted and every key at one place.
  lemma {:induction false} RunOrdered(collate: Collator, schema: seq<ColFlags>, s: seq<Row>, us: seq<Update>)
    requires TotalPreorder(collate) && Ordered(collate, schema, s)
    requires forall i :: 0 <= i < |us| ==> Builds(schema, us[i])
    ensures Ordered(collate, schema, Run(collate, s, us))
    decreases |us|
  {
    if us != [] {
      ApplyOrdered(collate, schema, s, us[0]);
      RunOrdered(collate, schema, Apply(collate, s, us[0]), us[1..]);
    }
  }

  lemma {:induction false} ApplyOrdered(collate: Collator, schema: seq<ColFlags>, s: seq<Row>, u: Update)
    requires TotalPreorder(collate) && Ordered(collate, schema, s) && Builds(schema, u)
    ensures Ordered(collate, schema, Apply(collate, s, u))
  {
    match u
    case Nothing =>
    case Delete(key) => RemoveOrdered(collate, schema, s, key);
    case Put(r) =>
      RemoveOrdered(collate, schema, s, r.key);
      InsertOrdered(collate, schema, RemoveKey(s, r.key), r);
  }

  // After any run a key is in the table exactly if the last update naming it put it there, or no
  // update named it and it was there at the start.
  lemma {:induction false} RunKeys(collate: Collator, s: seq<Row>, us: seq<Update>, key: Key)
    ensures HasKey(Run(collate, s, us), key) <==> LastPut(us, key, HasKey(s, key))
    decreases |us|
  {
    if us != [] {
      RunKeys(collate, Apply(collate, s, us[0]), us[1..], key);
      ApplyKeys(collate, s, us[0], key);
    }
  }

  // Neither is less than the other.
  predicate Alike(collate: Collator, a: Cols, b: Cols) { !RowLess(collate, a, b) && !RowLess(collate, b, a) }

  // Where a row of the key was alike before, a Put changes nothing, not even the hidden flag; else
  // the row itself is there afterwards, as the only one of its key.  Rows of other keys stay.
  lemma {:induction false} PutPuts(collate: Collator, s: seq<Row>, r: Row)
    ensures var t := Apply(collate, s, Put(r));
            && (if exists x :: x in s && x.key == r.key && Alike(collate, x.cols, r.cols) then t == s
                else r in t && forall x :: x in t && x.key == r.key ==> x == r)
            && forall x: Row :: x.key != r.key ==> (x in t <==> x in s)
  {
    var rest := RemoveKey(s, r.key);
    RemoveContents(s, r.key);
    InsertContents(collate, rest, r);
    forall x: Row
      ensures x in rest <==> x in s && x.key != r.key
      ensures x in InsertRow(collate, rest, r) <==> x in rest || x == r
    {
      InContents(s, x);
      InContents(rest, x);
      InContents(InsertRow(collate, rest, r), x);
    }
    if x :| x in s && x.key == r.key && Alike(collate, x.cols, r.cols) {
      var i :| 0 <= i < |s| && s[i] == x;
      assert HasEqual(collate, s, r.key, r.cols);
    }
  }

  lemma {:induction false} InContents(s: seq<Row>, x: Row)
    ensures x in s <==> multiset(s)[x] > 0
  {
  }

  // A Delete takes out the rows of its key and no others.
  lemma {:induction false} DeleteDeletes(collate: Collator, s: seq<Row>, key: Key)
    ensures forall x: Row :: x in Apply(collate, s, Delete(key)) <==> x in s && x.key != key
  {
    RemoveContents(s, key);
    forall x: Row
      ensures x in RemoveKey(s, key) <==> x in s && x.key != key
    {
      InContents(s, x);
      InContents(RemoveKey(s, key), x);
    }
  }

  predicate Names(u: Update, key: Key) { (u.Put? && u.row.key == key) || (u.Delete? && u.key == key) }

  // The last update of a run that names the key.
  function LastNaming(us: seq<Update>, key: Key): Update
    decreases |us|
  {
    if us == [] then Nothing
    else if Names(us[|us| - 1], key) then us[|us| - 1]
    else LastNaming(us[..|us| - 1], key)
  }

  // After any run: a row with the columns of the last Put naming the key, as far as the order tells
  // columns apart; no row after a Delete; and the rows of a key that was not named are as before.
  lemma {:induction false} RunRows(collate: Collator, s: seq<Row>, us: seq<Update>, key: Key)
    ensures var t := Run(collate, s, us);
            match LastNaming(us, key)
            case Put(r) =>
              r.key == key && exists x :: x in t && x.key == key && (x == r || Alike(collate, x.cols, r.cols))
            case Delete(_) => forall x :: x in t ==> x.key != key
            case Nothing => forall x: Row :: x.key == key ==> (x in t <==> x in s)
    decreases |us|
  {
    if us != [] {
      var u, rest := us[|us| - 1], us[..|us| - 1];
      assert us == rest + [u];
      RunSnoc(collate, s, rest, u);
      RunRows(collate, s, rest, key);
      match u {
        case Nothing =>
        case Delete(k) => DeleteDeletes(collate, Run(collate, s, rest), k);
        case Put(r) => PutPuts(collate, Run(collate, s, rest), r);
      }
    }
  }

  lemma {:induction false} RunSnoc(collate: Collator, s: seq<Row>, us: seq<Update>, u: Update)
    ensures Run(collate, s, us + [u]) == Apply(collate, Run(collate, s, us), u)
    decreases |us|
  {
    if us == [] {
      assert [u][1..] == [] && us + [u] == [u];
    } else {
      assert (us + [u])[0] == us[0] && (us + [u])[1..] == us[1..] + [u];
      RunSnoc(collate, Apply(collate, s, us[0]), us[1..], u);
    }
  }

  predicate HasKey(s: seq<Row>, key: Key) { exists i :: 0 <= i < |s| && s[i].key == key }

  predicate LastPut(us: seq<Update>, key: Key, before: bool) {
    if us == [] then before
    else LastPut(us[1..], key, match us[0] case Nothing => before
                                          case Delete(k) => before && k != key
                                          case Put(r) => before || r.key == key)
  }

  lemma {:induction false} ApplyKeys(collate: Collator, s: seq<Row>, u: Update, key: Key)
    ensures HasKey(Apply(collate, s, u), key) <==> match u case Nothing => HasKey(s, key)
                                                          case Delete(k) => HasKey(s, key) && k != key
                                                          case Put(r) => HasKey(s, key) || r.key == key
  {
    match u
    case Nothing =>
    case Delete(k) => RemoveHasKey(s, k, key);
    case Put(r) =>
      RemoveHasKey(s, r.key, key);
      InsertHasKey(collate, RemoveKey(s, r.key), r, key);
  }

  lemma {:induction false} RemoveHasKey(s: seq<Row>, k: Key, key: Key)
    ensures HasKey(RemoveKey(s, k), key) <==> HasKey(s, key) && k != key
  {
    RemoveContents(s, k);
    KeyInContents(s, key);
    KeyInContents(RemoveKey(s, k), key);
  }

  lemma {:induction false} InsertHasKey(collate: Collator, s: seq<Row>, r: Row, key: Key)
    ensures HasKey(InsertRow(collate, s, r), key) <==> HasKey(s, key) || r.key == key
  {
    InsertContents(collate, s, r);
    KeyInContents(s, key);
    KeyInContents(InsertRow(collate, s, r), key);
  }

  lemma {:induction false} KeyInContents(s: seq<Row>, key: Key)
    ensures HasKey(s, key) <==> exists x :: x in multiset(s) && x.key == key
  {
    if x :| x in multiset(s) && x.key == key {
      assert x in s;
      var i :| 0 <= i < |s| && s[i] == x;
    }
    if i :| 0 <= i < |s| && s[i].key == key {
      assert s[i] in multiset(s);
    }
  }
}
