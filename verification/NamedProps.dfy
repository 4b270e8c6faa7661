// Keeping the ids of named properties compact and unique while the rows that refer to them stay right.
module NamedProps {
  datatype Option<T> = None | Some(value: T)

  datatype Status = Success | DatabaseError

  const TAG_BASE := 0x8501
  const MAX_ID := 31485

  datatype Name = Name(guid: seq<int>, nameId: Option<int>, nameString: Option<string>)

  // A property of a hierarchyid or, in lob, of an instanceid.
  datatype Prop = Prop(owner: nat, tag: nat, value: int)

  type RowId = nat
  type Names = map<nat, Name>
  type Table = map<RowId, Prop>

  function Tag(id: nat): nat { TAG_BASE + id }

  // The tags of the ids that are dealt with are above all fixed ones and below 0xFFFF.
  lemma {:induction false} TagsFit(id: nat)
    ensures Tag(0) == 0x8501 && Tag(id) == 0x8501 + id
    ensures 1 <= id <= MAX_ID <==> 0x8501 < Tag(id) < 0xFFFF
  {
  }

  // The name a row refers to.
  function Meaning(names: Names, p: Prop): Option<Name> {
    if p.tag >= TAG_BASE && p.tag - TAG_BASE in names then Some(names[p.tag - TAG_BASE]) else None
  }

  // ---------------------------------------------------------------------------
  // The statements

  // UPDATE t SET tag=new WHERE tag=old
  function Retagged(t: Table, oldId: nat, newId: nat): Table {
    map r | r in t :: if t[r].tag == oldId then t[r].(tag := newId) else t[r]
  }

  predicate HasTag(p: Prop, a: nat, b: nat) { p.tag == a || p.tag == b }

  // SELECT owner FROM t WHERE tag IN (a, b) GROUP BY owner HAVING COUNT(*) >= 2
  function Ambiguous(t: Table, a: nat, b: nat): set<nat> {
    set r, s | r in t && s in t && r != s && t[r].owner == t[s].owner && HasTag(t[r], a, b) && HasTag(t[s], a, b)
      :: t[r].owner
  }

  // DELETE FROM t WHERE owner IN owners AND tag IN (a, b)
  function WithoutOwners(t: Table, owners: set<nat>, a: nat, b: nat): Table {
    map r | r in t && !(t[r].owner in owners && HasTag(t[r], a, b)) :: t[r]
  }

  function WithoutTag(t: Table, tag: nat): Table { map r | r in t && t[r].tag != tag :: t[r] }

  // SELECT id FROM names WHERE id <= top ORDER BY id DESC
  function IdsDown(names: Names, top: nat): (s: seq<nat>)
    ensures forall x :: x in s <==> x in names && x <= top
    ensures forall i, j :: 0 <= i < j < |s| ==> s[i] > s[j]
  {
    var below := if top == 0 then [] else IdsDown(names, top - 1);
    if top in names then
      var s := [top] + below;
      assert forall i :: 1 <= i < |s| ==> s[i] in below;
      s
    else below
  }

  // SELECT COUNT(*) FROM names WHERE id <= top
  function CountUpTo(names: Names, top: nat): nat { |set x | x in names && x <= top| }

  // The least id of the group of a name, looking up from `id`.
  function LeastId(names: Names, name: Name, id: nat, top: nat): (least: nat)
    requires id <= top && top in names && names[top] == name
    ensures id <= least <= top && least in names && names[least] == name
    ensures forall x :: id <= x < least && x in names ==> names[x] != name
    decreases top - id
  {
    if id in names && names[id] == name then id else LeastId(names, name, id + 1, top)
  }

  // The ids up to `top` that are not the least of their name's group, with the least, by id.
  function Duplicates(names: Names, top: nat): (s: seq<(nat, nat)>)
    ensures forall p :: p in s ==> p.0 <= top && p.0 in names && p.1 < p.0 && p.1 in names && names[p.1] == names[p.0]
    ensures forall p :: p in s ==> forall x :: x in names && x < p.1 ==> names[x] != names[p.1]
    ensures forall i, j :: 0 <= i < j < |s| ==> s[i].0 < s[j].0
  {
    var before := if top == 0 then [] else Duplicates(names, top - 1);
    if top in names && LeastId(names, names[top], 0, top) != top then
      before + [(top, LeastId(names, names[top], 0, top))]
    else before
  }

  lemma {:induction false} DuplicatesComplete(names: Names, top: nat, x: nat, y: nat)
    requires y <= top && x < y && x in names && y in names && names[x] == names[y]
    ensures exists p :: p in Duplicates(names, top) && p.0 == y
  {
    var s := Duplicates(names, top);
    if y == top {
      assert s[|s| - 1] in s;
    } else {
      DuplicatesComplete(names, top - 1, x, y);
      var p :| p in Duplicates(names, top - 1) && p.0 == y;
      assert p in s;
    }
  }

  // The duplicates and the ids that replace them are apart.
  lemma {:induction false} LeastIsNoDuplicate(names: Names, top: nat, i: nat, k: nat)
    requires i < |Duplicates(names, top)| && k < |Duplicates(names, top)|
    ensures Duplicates(names, top)[i].1 != Duplicates(names, top)[k].0
  {
    var s := Duplicates(names, top);
    assert s[i] in s && s[k] in s;
  }

  // While the first i duplicates are gone, the next one and its replacement are still there.
  lemma {:induction false} StillThere(names: Names, top: nat, s: seq<(nat, nat)>, i: nat, gone: set<nat>)
    requires s == Duplicates(names, top) && i < |s|
    requires forall x :: x in gone ==> exists k :: 0 <= k < i && s[k].0 == x
    ensures var p := s[i];
            p.0 in names - gone && p.1 in names - gone && names[p.0] == names[p.1] && p.1 < p.0 <= top
  {
    assert s[i] in s;
    forall k | 0 <= k < i
      ensures s[k].0 != s[i].0 && s[k].0 != s[i].1
    {
      LeastIsNoDuplicate(names, top, i, k);
    }
  }

  lemma {:induction false} Replaced(names: Names, top: nat, s: seq<(nat, nat)>, gone: set<nat>)
    requires s == Duplicates(names, top)
    requires forall x :: x in gone ==> exists k :: 0 <= k < |s| && s[k].0 == x
    ensures forall x :: x in gone ==>
              x in names && x <= top && exists y :: y in names - gone && y < x && names[y] == names[x]
    ensures (forall k :: 0 <= k < |s| ==> s[k].0 in gone) ==>
              forall x, y :: x in names - gone && y in names - gone && x < y <= top ==> names[x] != names[y]
  {
    forall x | x in gone
      ensures x in names && x <= top && exists y :: y in names - gone && y < x && names[y] == names[x]
    {
      var i :| 0 <= i < |s| && s[i].0 == x;
      assert s[i] in s;
      forall k | 0 <= k < |s|
        ensures s[i].1 != s[k].0
      {
        LeastIsNoDuplicate(names, top, i, k);
      }
      assert s[i].1 in names - gone;
    }
    forall x, y | x in names - gone && y in names - gone && x < y <= top && names[x] == names[y]
      ensures exists k :: 0 <= k < |s| && s[k].0 !in gone
    {
      DuplicatesComplete(names, top, x, y);
      var p :| p in s && p.0 == y;
      var k :| 0 <= k < |s| && s[k] == p;
    }
  }

  // ---------------------------------------------------------------------------
  // What must not change

  // Every row still there is the same property of the same owner, under the same name.
  ghost predicate Kept(names0: Names, tables0: seq<Table>, names: Names, tables: seq<Table>) {
    && |tables| == |tables0|
    && forall i, r :: 0 <= i < |tables| && r in tables[i] ==>
         && r in tables0[i] && tables[i][r].owner == tables0[i][r].owner && tables[i][r].value == tables0[i][r].value
         && Meaning(names, tables[i][r]) == Meaning(names0, tables0[i][r])
  }

  // The name stands under two different ids up to top.
  ghost predicate IsDouble(names: Names, top: nat, name: Name) {
    exists x, y :: x in names && y in names && x < y <= top && names[x] == name && names[y] == name
  }

  // Every row that is gone had a rival: another row of its owner for the same name, which stood
  // under two ids.
  ghost predicate OnlyAmbiguousLost(names0: Names, tables0: seq<Table>, tables: seq<Table>, top: nat) {
    && |tables| == |tables0|
    && forall i, r :: 0 <= i < |tables| && r in tables0[i] && r !in tables[i] ==> HasRival(names0, tables0[i], r, top)
  }

  ghost predicate HasRival(names: Names, t: Table, r: RowId, top: nat)
    requires r in t
  {
    && Meaning(names, t[r]).Some? && IsDouble(names, top, Meaning(names, t[r]).value)
    && exists s :: s in t && s != r && t[s].owner == t[r].owner && Meaning(names, t[s]) == Meaning(names, t[r])
  }

  lemma {:induction false} KeptTransitive(n0: Names, t0: seq<Table>, n1: Names, t1: seq<Table>, n2: Names,
      t2: seq<Table>)
    requires Kept(n0, t0, n1, t1) && Kept(n1, t1, n2, t2)
    ensures Kept(n0, t0, n2, t2)
  {
  }

  // Where names only go, a name that stands under two ids did so before.
  lemma {:induction false} LostTransitive(n0: Names, t0: seq<Table>, n1: Names, t1: seq<Table>, t2: seq<Table>,
      top: nat)
    requires Kept(n0, t0, n1, t1) && forall x :: x in n1 ==> x in n0 && n1[x] == n0[x]
    requires OnlyAmbiguousLost(n0, t0, t1, top) && OnlyAmbiguousLost(n1, t1, t2, top)
    ensures OnlyAmbiguousLost(n0, t0, t2, top)
  {
    forall i, r | 0 <= i < |t2| && r in t0[i] && r !in t2[i]
      ensures HasRival(n0, t0[i], r, top)
    {
      if r in t1[i] {
        assert HasRival(n1, t1[i], r, top);
        var s :| s in t1[i] && s != r && t1[i][s].owner == t1[i][r].owner
            && Meaning(n1, t1[i][s]) == Meaning(n1, t1[i][r]);
        assert s in t0[i];
      }
    }
  }

  // ---------------------------------------------------------------------------
  // Merging one id into another in one table

  // The rows of either id of the owners that have two or more are deleted.
  function Pruned(t: Table, oldId: nat, newId: nat): Table {
    WithoutOwners(t, Ambiguous(t, Tag(oldId), Tag(newId)), Tag(oldId), Tag(newId))
  }

  // What is left of oldId goes over to newId.
  function Merged(t: Table, oldId: nat, newId: nat): Table { Retagged(Pruned(t, oldId, newId), Tag(oldId), Tag(newId)) }

  // How far a merge can have come when it stops.
  predicate MergeStage(before: Table, t: Table, oldId: nat, newId: nat) {
    t == before || t == Pruned(before, oldId, newId) || t == Merged(before, oldId, newId)
  }

  predicate HasOther(t: Table, r: RowId, a: nat, b: nat)
    requires r in t
  {
    exists s :: s in t && s != r && t[s].owner == t[r].owner && HasTag(t[s], a, b)
  }

  // Exactly the rows of either tag that are not the only ones of their owner are lost; the others
  // stay, under the new tag if they had the old one.
  lemma {:induction false} MergedExactly(t: Table, oldId: nat, newId: nat, r: RowId)
    ensures r in Pruned(t, oldId, newId) <==>
              r in t && !(HasTag(t[r], Tag(oldId), Tag(newId)) && HasOther(t, r, Tag(oldId), Tag(newId)))
    ensures r in Pruned(t, oldId, newId) ==> Pruned(t, oldId, newId)[r] == t[r]
    ensures r in Merged(t, oldId, newId) <==> r in Pruned(t, oldId, newId)
    ensures r in Merged(t, oldId, newId) ==>
              Merged(t, oldId, newId)[r] == if t[r].tag == Tag(oldId) then t[r].(tag := Tag(newId)) else t[r]
  {
    var a, b := Tag(oldId), Tag(newId);
    if r in t && HasTag(t[r], a, b) {
      if t[r].owner in Ambiguous(t, a, b) {
        var p, q :| p in t && q in t && p != q && t[p].owner == t[q].owner == t[r].owner && HasTag(t[p], a, b)
                    && HasTag(t[q], a, b);
        var s := if p == r then q else p;
        assert s != r && t[s].owner == t[r].owner && HasTag(t[s], a, b);
      }
      if s :| s in t && s != r && t[s].owner == t[r].owner && HasTag(t[s], a, b) {
        assert t[r].owner in Ambiguous(t, a, b);
      }
    }
  }

  // An owner with rows under one of the ids only loses them exactly if there are two or more, as
  // there are of a property with several values, chunks, types or folders.
  lemma {:induction false} OneIdLosesExactly(t: Table, oldId: nat, newId: nat, r: RowId)
    requires r in t && HasTag(t[r], Tag(oldId), Tag(newId))
    requires forall s :: s in t && t[s].owner == t[r].owner && HasTag(t[s], Tag(oldId), Tag(newId)) ==>
               t[s].tag == t[r].tag
    ensures r !in Merged(t, oldId, newId) <==>
              exists s :: s in t && s != r && t[s].owner == t[r].owner && t[s].tag == t[r].tag
  {
    MergedExactly(t, oldId, newId, r);
  }

  ghost predicate OnePerOwner(t: Table, tag: nat) {
    forall r, s :: r in t && s in t && r != s && t[r].tag == tag && t[s].tag == tag ==> t[r].owner != t[s].owner
  }

  lemma {:induction false} MergedTags(t: Table, oldId: nat, newId: nat)
    requires oldId != newId
    ensures NoTag(Merged(t, oldId, newId), Tag(oldId)) && OnePerOwner(Merged(t, oldId, newId), Tag(newId))
    ensures forall tag :: tag != Tag(newId) && NoTag(t, tag) ==> NoTag(Merged(t, oldId, newId), tag)
    ensures forall tag :: tag != Tag(newId) && OnePerOwner(t, tag) ==> OnePerOwner(Merged(t, oldId, newId), tag)
  {
    hide Merged, Pruned;
    var m := Merged(t, oldId, newId);
    forall r | r in m
      ensures r in t && m[r] == if t[r].tag == Tag(oldId) then t[r].(tag := Tag(newId)) else t[r]
      ensures !(HasTag(t[r], Tag(oldId), Tag(newId)) && HasOther(t, r, Tag(oldId), Tag(newId)))
    {
      MergedExactly(t, oldId, newId, r);
    }
    forall r, s | r in m && s in m && r != s && m[r].tag == Tag(newId) && m[s].tag == Tag(newId)
      ensures m[r].owner != m[s].owner
    {
      assert HasTag(t[r], Tag(oldId), Tag(newId)) && HasTag(t[s], Tag(oldId), Tag(newId));
    }
  }

  lemma {:induction false} OtherIsRival(names: Names, t: Table, r: RowId, oldId: nat, newId: nat, top: nat)
    requires oldId in names && newId in names && names[oldId] == names[newId] && newId < oldId <= top
    requires r in t && HasTag(t[r], Tag(oldId), Tag(newId)) && HasOther(t, r, Tag(oldId), Tag(newId))
    ensures HasRival(names, t, r, top)
  {
    var s :| s in t && s != r && t[s].owner == t[r].owner && HasTag(t[s], Tag(oldId), Tag(newId));
    assert Meaning(names, t[s]) == Meaning(names, t[r]) == Some(names[oldId]);
  }

  ghost predicate NoTag(t: Table, tag: nat) { forall r :: r in t ==> t[r].tag != tag }

  ghost predicate Unused(tables: seq<Table>, id: nat) { forall i :: 0 <= i < |tables| ==> NoTag(tables[i], Tag(id)) }

  // An id nobody refers to can go.
  lemma {:induction false} DropKeeps(names: Names, tables: seq<Table>, id: nat)
    requires Unused(tables, id)
    ensures Kept(names, tables, names - {id}, tables)
  {
    forall i, r | 0 <= i < |tables| && r in tables[i]
      ensures Meaning(names - {id}, tables[i][r]) == Meaning(names, tables[i][r])
    {
      assert NoTag(tables[i], Tag(id));
    }
  }

  // ---------------------------------------------------------------------------
  // All merges, one after the other

  function MergedAll(t: Table, s: seq<(nat, nat)>): Table
    decreases |s|
  {
    if s == [] then t else MergedAll(Merged(t, s[0].0, s[0].1), s[1..])
  }

  lemma {:induction false} MergedAllSnoc(t: Table, s: seq<(nat, nat)>, p: (nat, nat))
    ensures MergedAll(t, s + [p]) == Merged(MergedAll(t, s), p.0, p.1)
    decreases |s|
  {
    if s == [] {
      assert [p][1..] == [] && s + [p] == [p];
    } else {
      assert (s + [p])[0] == s[0] && (s + [p])[1..] == s[1..] + [p];
      MergedAllSnoc(Merged(t, s[0].0, s[0].1), s[1..], p);
    }
  }

  ghost predicate Apart(s: seq<(nat, nat)>) {
    && (forall i, j :: 0 <= i < |s| && 0 <= j < |s| ==> s[i].0 != s[j].1)
    && (forall i, j :: 0 <= i < j < |s| ==> s[i].0 != s[j].0)
  }

  // After all merges no row has the tag of an id that was merged away, and no owner has two rows
  // with the tag of one that was merged into.
  lemma {:induction false} MergedAllTags(t: Table, s: seq<(nat, nat)>)
    requires Apart(s)
    ensures forall k :: 0 <= k < |s| ==>
              NoTag(MergedAll(t, s), Tag(s[k].0)) && OnePerOwner(MergedAll(t, s), Tag(s[k].1))
    decreases |s|
  {
    if s != [] {
      var last, rest := s[|s| - 1], s[..|s| - 1];
      assert s == rest + [last];
      MergedAllSnoc(t, rest, last);
      MergedAllTags(t, rest);
      MergedTags(MergedAll(t, rest), last.0, last.1);
      forall k | 0 <= k < |s|
        ensures NoTag(MergedAll(t, s), Tag(s[k].0)) && OnePerOwner(MergedAll(t, s), Tag(s[k].1))
      {
        if k < |rest| {
          assert rest[k] == s[k] && s[k].0 != last.1;
        }
      }
    }
  }

  lemma {:induction false} MergedAllShrinks(t: Table, s: seq<(nat, nat)>)
    ensures MergedAll(t, s).Keys <= t.Keys
    decreases |s|
  {
    if s != [] {
      MergedAllShrinks(Merged(t, s[0].0, s[0].1), s[1..]);
    }
  }

  // Two rows of an owner under one id are lost as soon as that id is merged, either way.
  lemma {:induction false} LostIfTwo(t: Table, s: seq<(nat, nat)>, x: nat, r: RowId, q: RowId)
    requires r in t && q in t && r != q && t[r].owner == t[q].owner && t[r].tag == t[q].tag == Tag(x)
    requires exists k :: 0 <= k < |s| && (s[k].0 == x || s[k].1 == x)
    ensures r !in MergedAll(t, s)
    decreases |s|
  {
    hide Merged, Pruned;
    var m := Merged(t, s[0].0, s[0].1);
    MergedExactly(t, s[0].0, s[0].1, r);
    MergedExactly(t, s[0].0, s[0].1, q);
    if s[0].0 == x || s[0].1 == x {
      MergedAllShrinks(m, s[1..]);
    } else {
      var k :| 0 <= k < |s| && (s[k].0 == x || s[k].1 == x);
      assert s[1..][k - 1] == s[k];
      LostIfTwo(m, s[1..], x, r, q);
    }
  }

  // The row is under one of these ids and the only one of its owner that is.
  ghost predicate Alone(t: Table, r: RowId, ids: set<nat>) {
    && r in t && (exists x :: x in ids && t[r].tag == Tag(x))
    && forall q, x :: q in t && t[q].owner == t[r].owner && x in ids && t[q].tag == Tag(x) ==> q == r
  }

  lemma {:induction false} StaysIfAlone(t: Table, s: seq<(nat, nat)>, ids: set<nat>, r: RowId)
    requires Alone(t, r, ids) && forall k :: 0 <= k < |s| ==> (s[k].0 in ids <==> s[k].1 in ids)
    ensures r in MergedAll(t, s)
    decreases |s|
  {
    hide Merged, Pruned;
    if s != [] {
      var m := Merged(t, s[0].0, s[0].1);
      forall q
        ensures q in m ==> q in t && m[q] == if t[q].tag == Tag(s[0].0) then t[q].(tag := Tag(s[0].1)) else t[q]
      {
        MergedExactly(t, s[0].0, s[0].1, q);
      }
      MergedExactly(t, s[0].0, s[0].1, r);
      assert Alone(m, r, ids);
      StaysIfAlone(m, s[1..], ids, r);
    }
  }

  // Of the ids that x shares its name with, the owner has rows under x only.
  ghost predicate OnlyUnder(names: Names, top: nat, t: Table, owner: nat, x: nat)
    requires x in names
  {
    forall q, y | q in t && y in names && y <= top && t[q].owner == owner && t[q].tag == Tag(y)
                  && names[y] == names[x] :: y == x
  }

  // Over the whole repair: an owner that has rows under one of a name's ids only loses them exactly
  // if there are two or more.  Nothing was ambiguous about them.
  lemma {:induction false} OneIdLosesInTheEnd(names: Names, top: nat, t: Table, r: RowId, x: nat)
    requires x in names && x <= top && IsDouble(names, top, names[x]) && r in t && t[r].tag == Tag(x)
    requires OnlyUnder(names, top, t, t[r].owner, x)
    ensures r !in MergedAll(t, Duplicates(names, top))
            <==> exists q :: q in t && q != r && t[q].owner == t[r].owner && t[q].tag == Tag(x)
  {
    var s := Duplicates(names, top);
    var ids := set y | y in names && y <= top && names[y] == names[x];
    forall k | 0 <= k < |s|
      ensures s[k].0 in ids <==> s[k].1 in ids
    {
      assert s[k] in s;
    }
    if q :| q in t && q != r && t[q].owner == t[r].owner && t[q].tag == Tag(x) {
      DoubleIsMerged(names, top, x);
      LostIfTwo(t, s, x, r, q);
    } else {
      assert x in ids && Alone(t, r, ids);
      StaysIfAlone(t, s, ids, r);
    }
  }

  lemma {:induction false} DuplicatesApart(names: Names, top: nat)
    ensures Apart(Duplicates(names, top))
  {
    var s := Duplicates(names, top);
    forall i, j | 0 <= i < |s| && 0 <= j < |s|
      ensures s[i].0 != s[j].1
    {
      LeastIsNoDuplicate(names, top, j, i);
    }
  }

  lemma {:induction false} DoubleIsMerged(names: Names, top: nat, x: nat)
    requires x in names && x <= top && IsDouble(names, top, names[x])
    ensures var s := Duplicates(names, top); exists k :: 0 <= k < |s| && (s[k].0 == x || s[k].1 == x)
  {
    var s := Duplicates(names, top);
    var a, b :| a in names && b in names && a < b <= top && names[a] == names[x] && names[b] == names[x];
    if a < x {
      DuplicatesComplete(names, top, a, x);
      var p :| p in s && p.0 == x;
    } else {
      DuplicatesComplete(names, top, x, b);
      var p :| p in s && p.0 == b;
      if p.1 != x {
        DuplicatesComplete(names, top, p.1, x);
        var q :| q in s && q.0 == x;
      }
    }
  }

  // No row has a tag it did not have, but for that of newId.
  ghost predicate OnlyNewTag(before: seq<Table>, tables: seq<Table>, newId: nat) {
    && |tables| == |before|
    && forall i, r :: 0 <= i < |tables| && r in tables[i] ==>
         r in before[i] && (tables[i][r].tag == before[i][r].tag || tables[i][r].tag == Tag(newId))
  }

  lemma {:induction false} NoTagStays(before: seq<Table>, tables: seq<Table>, newId: nat, id: nat)
    requires OnlyNewTag(before, tables, newId) && id != newId && Unused(before, id)
    ensures Unused(tables, id)
  {
    forall k, r | 0 <= k < |tables| && r in tables[k]
      ensures tables[k][r].tag != Tag(id)
    {
      assert NoTag(before[k], Tag(id));
    }
  }

  function AllRetagged(tables: seq<Table>, oldId: nat, newId: nat): (s: seq<Table>)
    ensures |s| == |tables|
  {
    seq(|tables|, i requires 0 <= i < |tables| => Retagged(tables[i], Tag(oldId), Tag(newId)))
  }

  function Moved(names: Names, oldId: nat, newId: nat): Names
    requires oldId in names
  {
    (names - {oldId})[newId := names[oldId]]
  }

  // Moving a name to a free id keeps what every row refers to exactly if no row has the tag of
  // the free id.
  lemma {:induction false} MoveKeepsExactly(names: Names, tables: seq<Table>, oldId: nat, newId: nat)
    requires oldId in names && newId !in names
    ensures Kept(names, tables, Moved(names, oldId, newId), AllRetagged(tables, oldId, newId))
            <==> Unused(tables, newId)
    ensures forall i :: 0 <= i < |tables| ==> AllRetagged(tables, oldId, newId)[i].Keys == tables[i].Keys
    ensures Unused(AllRetagged(tables, oldId, newId), oldId)
  {
    var after := AllRetagged(tables, oldId, newId);
    forall i | 0 <= i < |tables|
      ensures after[i].Keys == tables[i].Keys && NoTag(after[i], Tag(oldId))
    {
    }
    if Unused(tables, newId) {
      MoveKeeps(names, tables, oldId, newId);
    } else {
      var i, r :| 0 <= i < |tables| && r in tables[i] && tables[i][r].tag == Tag(newId);
      assert r in after[i] && Meaning(Moved(names, oldId, newId), after[i][r]) == Some(names[oldId]);
      assert Meaning(names, tables[i][r]) == None;
    }
  }

  lemma {:induction false} MoveKeeps(names: Names, tables: seq<Table>, oldId: nat, newId: nat)
    requires oldId in names && newId !in names && Unused(tables, newId)
    ensures Kept(names, tables, Moved(names, oldId, newId), AllRetagged(tables, oldId, newId))
  {
    var after := AllRetagged(tables, oldId, newId);
    forall i | 0 <= i < |tables|
      ensures NoTag(tables[i], Tag(newId)) && after[i] == Retagged(tables[i], Tag(oldId), Tag(newId))
    {
    }
  }

  // ---------------------------------------------------------------------------
  // Moving ids about

  ghost function LowIds(names: Names, top: nat): set<nat> { set x | x in names && x <= top }

  // No row has the tag of an id that is free.
  ghost predicate NoStrays(names: Names, tables: seq<Table>, top: nat) {
    forall x :: 1 <= x <= top && x !in names ==> Unused(tables, x)
  }

  // No row is lost, and every row keeps its name.
  ghost predicate Faithful(names0: Names, tables0: seq<Table>, names: Names, tables: seq<Table>, top: nat) {
    && NoStrays(names, tables, top) && Kept(names0, tables0, names, tables)
    && forall i :: 0 <= i < |tables| ==> tables[i].Keys == tables0[i].Keys
  }

  lemma {:induction false} MoveIsFaithful(names0: Names, tables0: seq<Table>, names: Names, tables: seq<Table>,
      top: nat, oldId: nat, newId: nat)
    requires Faithful(names0, tables0, names, tables, top)
    requires oldId in names && newId !in names && 1 <= newId <= top
    ensures Faithful(names0, tables0, Moved(names, oldId, newId), AllRetagged(tables, oldId, newId), top)
  {
    hide Kept, Retagged, Moved;
    MoveKeepsExactly(names, tables, oldId, newId);
    KeptTransitive(names0, tables0, names, tables, Moved(names, oldId, newId), AllRetagged(tables, oldId, newId));
    MoveLeavesNoStrays(names, tables, top, oldId, newId);
    KeptKeys(names0, tables0, names, tables);
  }

  lemma {:induction false} KeptKeys(names0: Names, tables0: seq<Table>, names: Names, tables: seq<Table>)
    requires Kept(names0, tables0, names, tables)
    ensures |tables| == |tables0|
  {
  }

  lemma {:induction false} MoveLeavesNoStrays(names: Names, tables: seq<Table>, top: nat, oldId: nat, newId: nat)
    requires NoStrays(names, tables, top) && oldId in names && newId !in names
    ensures NoStrays(Moved(names, oldId, newId), AllRetagged(tables, oldId, newId), top)
  {
    var after := AllRetagged(tables, oldId, newId);
    forall x, i | 1 <= x <= top && x !in Moved(names, oldId, newId) && 0 <= i < |after|
      ensures NoTag(after[i], Tag(x))
    {
      assert after[i] == Retagged(tables[i], Tag(oldId), Tag(newId));
      assert x == oldId || Unused(tables, x);
      assert x == oldId || NoTag(tables[i], Tag(x));
    }
  }

  // Where each name has gone: none is lost, none runs into another.
  ghost predicate Placed(names0: Names, names: Names, place: map<nat, nat>) {
    && place.Keys == names0.Keys
    && (forall x, y :: x in place && y in place && x != y ==> place[x] != place[y])
    && (forall x :: x in place ==> place[x] in names && names[place[x]] == names0[x])
    && (forall y :: y in names ==> y in place.Values)
  }

  lemma {:induction false} MoveIsPlaced(names0: Names, names: Names, place: map<nat, nat>, oldId: nat, newId: nat)
    requires Placed(names0, names, place) && oldId in names0 && place[oldId] == oldId && newId !in names
    ensures oldId in names && Placed(names0, Moved(names, oldId, newId), place[oldId := newId])
  {
    hide Moved;
    var after, moved := place[oldId := newId], Moved(names, oldId, newId);
    forall x | x in after
      ensures after[x] in moved && moved[after[x]] == names0[x]
    {
      MovedName(names, oldId, newId, place[x]);
    }
    forall y | y in moved
      ensures y in after.Values
    {
      MovedName(names, oldId, newId, y);
      MovedValue(place, oldId, newId, y);
    }
  }

  lemma {:induction false} MovedName(names: Names, oldId: nat, newId: nat, y: nat)
    requires oldId in names && newId !in names
    ensures var moved := Moved(names, oldId, newId);
            && newId in moved && moved[newId] == names[oldId]
            && (y in names && y != oldId ==> y in moved && moved[y] == names[y])
            && (y in moved ==> y == newId || (y in names && y != oldId))
  {
  }

  lemma {:induction false} MovedValue(place: map<nat, nat>, oldId: nat, newId: nat, y: nat)
    requires oldId in place && place[oldId] == oldId && (y == newId || (y in place.Values && y != oldId))
    ensures y in place[oldId := newId].Values
  {
    var x := if y == newId then oldId else (var x :| x in place && place[x] == y; x);
    assert place[oldId := newId][x] == y;
  }
}
