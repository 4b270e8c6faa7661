// np_repair_dups and np_defrag.  Any statement may fail, and the user may ask to stop at any time.
module Dbadm {
  import opened Compaction
  import opened NamedProps

  class Signal {
    var quit: bool
    ghost var polls: nat

    // adm_quit as it is read; once set it stays set.
    method Poll() returns (q: bool)
      modifies this
      ensures q == quit && (old(quit) ==> quit) && polls == old(polls) + 1
    {
      polls := polls + 1;
      if * {
        quit := true;
      }
      q := quit;
    }
  }

  class Database {
    var names: Names
    // One for each of properties, tproperties, mvproperties, indexedproperties, singleinstances, lob.
    var tables: seq<Table>
    // The temporary table vt, if it is there.
    var scratch: Option<set<nat>>
    // Some statement has failed that could have gone well.
    ghost var failed: bool
    // Something was to be changed though the user was known to ask for a stop (`stop`).
    ghost var late: bool

    method Statement() returns (er: Status)
      modifies this`failed
      ensures failed == (old(failed) || er != Success)
    {
      if * {
        failed := true;
        return DatabaseError;
      }
      er := Success;
    }

    method SelectIds(top: nat) returns (er: Status, ids: seq<nat>)
      modifies this`failed
      ensures failed == (old(failed) || er != Success)
      ensures er == Success ==> ids == IdsDown(names, top)
    {
      ids := IdsDown(names, top);
      er := Statement();
    }

    // How many ids there are up to the top, less how many of them are at most that number.
    method SelectWork(top: nat) returns (er: Status, work: int)
      modifies this`failed
      ensures failed == (old(failed) || er != Success)
      ensures er == Success ==> work == CountUpTo(names, top) - CountUpTo(names, CountUpTo(names, top))
    {
      work := CountUpTo(names, top) - CountUpTo(names, CountUpTo(names, top));
      er := Statement();
    }

    method SelectDuplicates(top: nat) returns (er: Status, duplicates: seq<(nat, nat)>)
      modifies this`failed
      ensures failed == (old(failed) || er != Success)
      ensures er == Success ==> duplicates == Duplicates(names, top)
    {
      duplicates := Duplicates(names, top);
      er := Statement();
    }

    // ALTER TABLE names, and what else changes something.
    method Change(ghost stop: bool) returns (er: Status)
      modifies this`failed, this`late
      ensures failed == (old(failed) || er != Success) && late == (old(late) || stop)
    {
      late := late || stop;
      er := Statement();
    }

    // There cannot be two tables of that name.
    method CreateScratch(i: nat, oldId: nat, newId: nat, ghost stop: bool) returns (er: Status)
      requires i < |tables|
      modifies this`scratch, this`failed, this`late
      ensures failed == (old(failed) || (old(scratch).None? && er != Success)) && late == (old(late) || stop)
      ensures er == Success ==>
                old(scratch).None? && scratch == Some(Ambiguous(tables[i], Tag(oldId), Tag(newId)))
      ensures er != Success ==> scratch == old(scratch)
    {
      late := late || stop;
      if scratch.Some? {
        return DatabaseError;
      }
      er := Change(stop);
      if er == Success {
        scratch := Some(Ambiguous(tables[i], Tag(oldId), Tag(newId)));
      }
    }

    method DropScratch(ghost stop: bool) returns (er: Status)
      modifies this`scratch, this`failed, this`late
      ensures failed == (old(failed) || er != Success) && late == (old(late) || stop)
      ensures scratch == if er == Success then None else old(scratch)
    {
      er := Change(stop);
      if er == Success {
        scratch := None;
      }
    }

    method Retag(i: nat, oldId: nat, newId: nat, ghost stop: bool) returns (er: Status)
      requires i < |tables|
      modifies this`tables, this`failed, this`late
      ensures failed == (old(failed) || er != Success) && late == (old(late) || stop)
      ensures tables == if er != Success then old(tables)
                        else old(tables)[i := Retagged(old(tables)[i], Tag(oldId), Tag(newId))]
    {
      er := Change(stop);
      if er == Success {
        tables := tables[i := Retagged(tables[i], Tag(oldId), Tag(newId))];
      }
    }

    method DeleteOwners(i: nat, oldId: nat, newId: nat, ghost stop: bool) returns (er: Status)
      requires i < |tables| && scratch.Some?
      modifies this`tables, this`failed, this`late
      ensures failed == (old(failed) || er != Success) && late == (old(late) || stop)
      ensures tables == if er != Success then old(tables)
                        else old(tables)[i := WithoutOwners(old(tables)[i], scratch.value, Tag(oldId), Tag(newId))]
    {
      er := Change(stop);
      if er == Success {
        tables := tables[i := WithoutOwners(tables[i], scratch.value, Tag(oldId), Tag(newId))];
      }
    }

    method DeleteTag(i: nat, id: nat, ghost stop: bool) returns (er: Status)
      requires i < |tables|
      modifies this`tables, this`failed, this`late
      ensures failed == (old(failed) || er != Success) && late == (old(late) || stop)
      ensures tables == if er == Success then old(tables)[i := WithoutTag(old(tables)[i], Tag(id))] else old(tables)
    {
      er := Change(stop);
      if er == Success {
        tables := tables[i := WithoutTag(tables[i], Tag(id))];
      }
    }

    method RenameId(oldId: nat, newId: nat, ghost stop: bool) returns (er: Status)
      requires oldId in names && newId !in names
      modifies this`names, this`failed, this`late
      ensures failed == (old(failed) || er != Success) && late == (old(late) || stop)
      ensures names == if er == Success then Moved(old(names), oldId, newId) else old(names)
    {
      er := Change(stop);
      if er == Success {
        names := Moved(names, oldId, newId);
      }
    }

    method DeleteId(id: nat, ghost stop: bool) returns (er: Status)
      modifies this`names, this`failed, this`late
      ensures failed == (old(failed) || er != Success) && late == (old(late) || stop)
      ensures names == if er == Success then old(names) - {id} else old(names)
    {
      er := Change(stop);
      if er == Success {
        names := names - {id};
      }
    }
  }

  // ---------------------------------------------------------------------------
  // Merging names that are there more than once

  // All rows of oldId in one table: those of an owner with two or more rows of either tag are
  // deleted, the others go over to newId.  It stops between statements only, at once if that was
  // asked for before, and else leaves no temporary table for the next to stumble over.
  method MergeTable(db: Database, signal: Signal, i: nat, oldId: nat, newId: nat) returns (er: Status)
    requires i < |db.tables| && oldId in db.names && newId in db.names && db.names[oldId] == db.names[newId]
    requires newId < oldId <= MAX_ID
    modifies db`tables, db`scratch, db`failed, db`late, signal
    ensures old(db.scratch).None? ==> db.failed == (old(db.failed) || er != Success)
    ensures er == Success && !signal.quit ==> db.scratch.None? && signal.polls == old(signal.polls) + 4
    ensures old(signal.quit) ==> signal.quit && db.tables == old(db.tables)
    ensures !old(signal.quit) ==> db.late == old(db.late)
    ensures Kept(db.names, old(db.tables), db.names, db.tables)
    ensures OnlyAmbiguousLost(db.names, old(db.tables), db.tables, MAX_ID)
    ensures OnlyNewTag(old(db.tables), db.tables, newId)
    ensures |db.tables| == old(|db.tables|) && MergeStage(old(db.tables)[i], db.tables[i], oldId, newId)
    ensures forall k :: 0 <= k < |db.tables| && k != i ==> db.tables[k] == old(db.tables)[k]
    ensures er == Success && !signal.quit ==>
              db.tables[i] == Merged(old(db.tables)[i], oldId, newId) && NoTag(db.tables[i], Tag(oldId))
  {
    hide Pruned, Retagged, Kept, OnlyAmbiguousLost, OnlyNewTag, NoTag;
    ghost var before := db.tables[i];
    StagesKeep(db.names, db.tables, oldId, newId, MAX_ID);
    MergedTags(before, oldId, newId);
    var quit;
    er, quit := PruneTable(db, signal, i, oldId, newId);
    if er != Success || quit {
      return;
    }
    er := db.Retag(i, oldId, newId, signal.quit);
    if er != Success {
      return;
    }
    quit := signal.Poll();
    if quit {
      return;
    }
    NothingLeft(before, oldId, newId);
    er := db.DeleteTag(i, oldId, signal.quit);
  }

  // The rows that are not the only ones of their owner, by way of the temporary table.
  method PruneTable(db: Database, signal: Signal, i: nat, oldId: nat, newId: nat) returns (er: Status, quit: bool)
    requires i < |db.tables|
    modifies db`tables, db`scratch, db`failed, db`late, signal
    ensures old(db.scratch).None? ==> db.failed == (old(db.failed) || er != Success)
    ensures |db.tables| == old(|db.tables|) && forall k :: 0 <= k < |db.tables| && k != i ==>
        db.tables[k] == old(db.tables)[k]
    ensures db.tables[i] == old(db.tables)[i] || db.tables[i] == Pruned(old(db.tables)[i], oldId, newId)
    ensures er == Success && !quit ==>
              && db.tables[i] == Pruned(old(db.tables)[i], oldId, newId)
              && db.scratch.None? && signal.polls == old(signal.polls) + 3 && !signal.quit
    ensures quit ==> signal.quit
    ensures old(signal.quit) ==> signal.quit && db.tables == old(db.tables)
    ensures !old(signal.quit) ==> db.late == old(db.late)
  {
    hide Ambiguous, WithoutOwners;
    quit := false;
    er := db.CreateScratch(i, oldId, newId, signal.quit);
    if er != Success {
      return;
    }
    quit := signal.Poll();
    if quit {
      return;
    }
    er := db.DeleteOwners(i, oldId, newId, signal.quit);
    if er != Success {
      return;
    }
    quit := signal.Poll();
    if quit {
      return;
    }
    er := db.DropScratch(signal.quit);
    if er != Success {
      return;
    }
    quit := signal.Poll();
  }

  lemma {:induction false} NothingLeft(t: Table, oldId: nat, newId: nat)
    requires oldId != newId
    ensures WithoutTag(Merged(t, oldId, newId), Tag(oldId)) == Merged(t, oldId, newId)
  {
    MergedTags(t, oldId, newId);
  }

  ghost predicate Stages(before: seq<Table>, tables: seq<Table>, oldId: nat, newId: nat) {
    |tables| == |before| && forall k :: 0 <= k < |tables| ==> MergeStage(before[k], tables[k], oldId, newId)
  }

  // A merge of two ids of one name, stopped anywhere: what is there stands for the same names, and
  // what is gone had a rival.
  lemma {:induction false} StagesKeep(names: Names, before: seq<Table>, oldId: nat, newId: nat, top: nat)
    requires oldId in names && newId in names && names[oldId] == names[newId] && newId < oldId <= top
    ensures forall tables :: Stages(before, tables, oldId, newId) ==>
              && Kept(names, before, names, tables) && OnlyAmbiguousLost(names, before, tables, top)
              && OnlyNewTag(before, tables, newId)
  {
    hide Kept, OnlyAmbiguousLost, OnlyNewTag;
    forall tables | Stages(before, tables, oldId, newId)
      ensures Kept(names, before, names, tables) && OnlyAmbiguousLost(names, before, tables, top)
      ensures OnlyNewTag(before, tables, newId)
    {
      StageKeeps(names, before, tables, oldId, newId, top);
    }
  }

  lemma {:induction false} StageKeeps(names: Names, before: seq<Table>, tables: seq<Table>, oldId: nat, newId: nat,
      top: nat)
    requires oldId in names && newId in names && names[oldId] == names[newId] && newId < oldId <= top
    requires Stages(before, tables, oldId, newId)
    ensures Kept(names, before, names, tables) && OnlyAmbiguousLost(names, before, tables, top)
    ensures OnlyNewTag(before, tables, newId)
  {
    hide Meaning, Pruned, Merged, HasRival;
    forall k, r | 0 <= k < |tables|
      ensures r in tables[k] ==>
                r in before[k]
                && (tables[k][r] == before[k][r]
                    || (before[k][r].tag == Tag(oldId) && tables[k][r] == before[k][r].(tag := Tag(newId))))
      ensures r in before[k] && r !in tables[k] ==> HasRival(names, before[k], r, top)
    {
      MergedExactly(before[k], oldId, newId, r);
      if r in before[k] && r !in tables[k] {
        OtherIsRival(names, before[k], r, oldId, newId, top);
      }
    }
    SameMeaning(names, oldId, newId);
  }

  lemma {:induction false} SameMeaning(names: Names, oldId: nat, newId: nat)
    requires oldId in names && newId in names && names[oldId] == names[newId]
    ensures forall p: Prop :: p.tag == Tag(oldId) ==> Meaning(names, p.(tag := Tag(newId))) == Meaning(names, p)
  {
  }

  // What holds after some of the duplicates are merged and one more is perhaps begun.
  ghost predicate Repairing(names0: Names, tables0: seq<Table>, names: Names, tables: seq<Table>, top: nat) {
    && (forall x :: x in names ==> x in names0 && names[x] == names0[x])
    && Kept(names0, tables0, names, tables) && OnlyAmbiguousLost(names0, tables0, tables, top)
  }

  lemma {:induction false} RepairBegins(names: Names, tables: seq<Table>, top: nat)
    ensures Repairing(names, tables, names, tables, top)
  {
  }

  lemma {:induction false} RepairGoesOn(names0: Names, tables0: seq<Table>, names: Names, tables: seq<Table>, top: nat,
      names1: Names, tables1: seq<Table>, oldId: nat, newId: nat)
    requires Repairing(names0, tables0, names, tables, top)
    requires oldId in names && newId in names && names[oldId] == names[newId] && newId < oldId <= top
    requires Stages(tables, tables1, oldId, newId)
    requires names1 == names || (names1 == names - {oldId} && AllMerged(tables, tables1, oldId, newId))
    ensures Repairing(names0, tables0, names1, tables1, top)
    ensures OnlyNewTag(tables, tables1, newId) && (names1 != names ==> Unused(tables1, oldId))
  {
    hide Kept, OnlyAmbiguousLost, MergeStage, Merged, OnlyNewTag;
    StageKeeps(names, tables, tables1, oldId, newId, top);
    KeptTransitive(names0, tables0, names, tables, names, tables1);
    LostTransitive(names0, tables0, names, tables, tables1, top);
    if names1 != names {
      forall k | 0 <= k < |tables1|
        ensures NoTag(tables1[k], Tag(oldId))
      {
        MergedTags(tables[k], oldId, newId);
      }
      DropKeeps(names, tables1, oldId);
      KeptTransitive(names0, tables0, names, tables1, names1, tables1);
    }
  }

  // One duplicate into all tables, and then out of the names.
  method MergeName(db: Database, signal: Signal, oldId: nat, newId: nat) returns (er: Status)
    requires oldId in db.names && newId in db.names && db.names[oldId] == db.names[newId] && newId < oldId <= MAX_ID
    modifies db, signal
    ensures old(db.scratch).None? ==> db.failed == (old(db.failed) || er != Success)
    ensures old(db.scratch).None? && er == Success && !signal.quit ==> db.scratch.None?
    ensures old(signal.quit) ==> signal.quit && db.names == old(db.names) && db.tables == old(db.tables)
    ensures db.late == old(db.late)
    ensures Repairing(old(db.names), old(db.tables), db.names, db.tables, MAX_ID)
    ensures OnlyNewTag(old(db.tables), db.tables, newId)
    ensures Stages(old(db.tables), db.tables, oldId, newId)
    ensures db.names == old(db.names)
            || (db.names == old(db.names) - {oldId} && AllMerged(old(db.tables), db.tables, oldId, newId))
    ensures db.names != old(db.names) ==> Unused(db.tables, oldId)
    ensures er == Success && !signal.quit ==> db.names == old(db.names) - {oldId}
  {
    hide Pruned, Merged, Repairing, OnlyNewTag, Kept, OnlyAmbiguousLost, Unused;
    er := Success;
    ghost var names, before := db.names, db.tables;
    MergeKeeps(names, before, oldId, newId, MAX_ID);
    for i := 0 to |db.tables|
      invariant db.names == names && Stages(before, db.tables, oldId, newId)
      invariant forall k :: i <= k < |before| ==> db.tables[k] == before[k]
      invariant !signal.quit ==> forall k :: 0 <= k < i ==> db.tables[k] == Merged(before[k], oldId, newId)
      invariant old(signal.quit) ==> signal.quit && db.tables == before
      invariant old(db.scratch).None? && !signal.quit ==> db.scratch.None?
      invariant db.late == old(db.late)
      invariant er == Success && (old(db.scratch).None? ==> db.failed == old(db.failed))
    {
      var quit := signal.Poll();
      if quit {
        break;
      }
      er := MergeTable(db, signal, i, oldId, newId);
      if er != Success {
        return;
      }
    }
    var quit := signal.Poll();
    if quit {
      return;
    }
    assert AllMerged(before, db.tables, oldId, newId);
    er := db.DeleteId(oldId, signal.quit);
  }

  ghost predicate AllMerged(before: seq<Table>, tables: seq<Table>, oldId: nat, newId: nat) {
    |tables| == |before| && forall k :: 0 <= k < |tables| ==> tables[k] == Merged(before[k], oldId, newId)
  }

  lemma {:induction false} MergeKeeps(names: Names, before: seq<Table>, oldId: nat, newId: nat, top: nat)
    requires oldId in names && newId in names && names[oldId] == names[newId] && newId < oldId <= top
    ensures forall tables :: Stages(before, tables, oldId, newId) ==>
              Repairing(names, before, names, tables, top) && OnlyNewTag(before, tables, newId)
    ensures forall tables :: AllMerged(before, tables, oldId, newId) ==>
              && Repairing(names, before, names - {oldId}, tables, top) && OnlyNewTag(before, tables, newId)
              && Stages(before, tables, oldId, newId) && Unused(tables, oldId)
  {
    hide Repairing, OnlyNewTag, Kept, OnlyAmbiguousLost, Unused;
    RepairBegins(names, before, top);
    forall tables | Stages(before, tables, oldId, newId)
      ensures Repairing(names, before, names, tables, top) && OnlyNewTag(before, tables, newId)
    {
      RepairGoesOn(names, before, names, before, top, names, tables, oldId, newId);
    }
    forall tables | AllMerged(before, tables, oldId, newId)
      ensures Repairing(names, before, names - {oldId}, tables, top) && OnlyNewTag(before, tables, newId)
      ensures Stages(before, tables, oldId, newId) && Unused(tables, oldId)
    {
      RepairGoesOn(names, before, names, before, top, names - {oldId}, tables, oldId, newId);
    }
  }

  // At the end no owner has two rows under one id of a name that stood under several.
  ghost predicate NoRivals(names0: Names, names: Names, tables: seq<Table>, top: nat) {
    forall x, k :: x in names && x <= top && IsDouble(names0, top, names[x]) && 0 <= k < |tables| ==>
        OnePerOwner(tables[k], Tag(x))
  }

  // Wherever it stops, by failure, by request or at the end: every row still there stands for the
  // same name as before, every row gone had a rival for a name with two ids, and no row is left
  // without its name.  At the end every table is what the merges of all duplicates in turn make of
  // it, no two names that count are equal, and no rivals are left.
  method RepairDups(db: Database, signal: Signal) returns (er: Status)
    modifies db, signal
    ensures old(db.scratch).None? ==> db.failed == (old(db.failed) || er != Success)
    ensures old(db.scratch).None? && er == Success && !signal.quit ==> db.scratch.None?
    ensures old(signal.quit) ==> db.names == old(db.names) && db.tables == old(db.tables)
    ensures db.late == old(db.late)
    ensures Kept(old(db.names), old(db.tables), db.names, db.tables)
    ensures OnlyAmbiguousLost(old(db.names), old(db.tables), db.tables, MAX_ID)
    ensures forall x :: x in db.names ==> x in old(db.names) && db.names[x] == old(db.names)[x]
    ensures forall x :: x in old(db.names) && x !in db.names ==>
              && x <= MAX_ID && (exists y :: y in db.names && y < x && db.names[y] == old(db.names)[x])
              && Unused(db.tables, x)
    ensures er == Success && !signal.quit ==> forall x, y :: x in db.names && y in db.names && x < y <= MAX_ID ==>
        db.names[x] != db.names[y]
    ensures er == Success && !signal.quit ==> forall k :: 0 <= k < |db.tables| ==>
        db.tables[k] == MergedAll(old(db.tables)[k], Duplicates(old(db.names), MAX_ID))
    ensures er == Success && !signal.quit ==> NoRivals(old(db.names), db.names, db.tables, MAX_ID)
  {
    hide OnlyAmbiguousLost, Kept, Repairing, SoFar, Duplicates, Unused, MergedAll, Stages, OnlyNewTag, IsDouble,
         NoRivals, AllMerged;
    var top := MAX_ID;
    ghost var names, before := db.names, db.tables;
    RepairBegins(names, before, top);
    var result;
    er, result := db.SelectDuplicates(top);
    if er != Success {
      RepairedSoFar(names, before, names, before, top);
      return;
    }
    var i := 0;
    ghost var gone: set<nat> := {};
    NoneSoFar(names, before, result, top);
    while true
      invariant 0 <= i <= |result| && er == Success && db.late == old(db.late)
      invariant old(db.scratch).None? && !signal.quit ==> db.scratch.None?
      invariant old(db.scratch).None? ==> db.failed == old(db.failed)
      invariant old(signal.quit) ==> signal.quit && db.names == names && db.tables == before
      invariant SoFar(names, before, db.names, db.tables, result, i, gone, top)
      decreases |result| - i
    {
      var quit := signal.Poll();
      if quit || i == |result| {
        break;
      }
      var oldId, newId := result[i].0, result[i].1;
      NextIsThere(names, before, db.names, db.tables, result, i, gone, top);
      ghost var names1, tables1 := db.names, db.tables;
      er := MergeName(db, signal, oldId, newId);
      if er != Success || signal.quit {
        StopHere(names, before, names1, tables1, result, i, gone, top, db.names, db.tables);
        return;
      }
      OneMore(names, before, names1, tables1, result, i, gone, top, db.tables);
      gone := gone + {oldId};
      i := i + 1;
    }
    StopHere(names, before, db.names, db.tables, result, i, gone, top, db.names, db.tables);
    if !signal.quit {
      Repaired(names, before, db.names, db.tables, top, result, gone);
    }
  }

  // The first i duplicates are merged and gone.
  ghost predicate SoFar(names0: Names, tables0: seq<Table>, names: Names, tables: seq<Table>, result: seq<(nat, nat)>,
      i: nat, gone: set<nat>, top: nat)
  {
    && i <= |result| && result == Duplicates(names0, top)
    && (forall x :: x in gone <==> exists k :: 0 <= k < i && result[k].0 == x)
    && names == names0 - gone && |tables| == |tables0|
    && Repairing(names0, tables0, names, tables, top)
    && (forall x :: x in gone ==> Unused(tables, x))
    && (forall k :: 0 <= k < |tables| ==> tables[k] == MergedAll(tables0[k], result[..i]))
  }

  lemma {:induction false} NoneSoFar(names: Names, tables: seq<Table>, result: seq<(nat, nat)>, top: nat)
    requires result == Duplicates(names, top) && Repairing(names, tables, names, tables, top)
    ensures SoFar(names, tables, names, tables, result, 0, {}, top)
  {
    hide Repairing, Duplicates;
  }

  lemma {:induction false} NextIsThere(names0: Names, tables0: seq<Table>, names: Names, tables: seq<Table>,
      result: seq<(nat, nat)>, i: nat, gone: set<nat>, top: nat)
    requires SoFar(names0, tables0, names, tables, result, i, gone, top) && i < |result|
    ensures result[i].0 in names && result[i].1 in names && names[result[i].0] == names[result[i].1]
    ensures result[i].1 < result[i].0 <= top
  {
    hide Repairing, Duplicates, MergedAll, Unused;
    StillThere(names0, top, result, i, gone);
  }

  lemma {:induction false} OneMore(names0: Names, tables0: seq<Table>, names: Names, tables: seq<Table>,
      result: seq<(nat, nat)>, i: nat, gone: set<nat>, top: nat, tables1: seq<Table>)
    requires SoFar(names0, tables0, names, tables, result, i, gone, top) && i < |result|
    ensures AllMerged(tables, tables1, result[i].0, result[i].1) ==>
              SoFar(names0, tables0, names - {result[i].0}, tables1, result, i + 1, gone + {result[i].0}, top)
  {
    hide Repairing, Duplicates, MergedAll, Unused, OnlyNewTag, Stages, Merged;
    NextIsThere(names0, tables0, names, tables, result, i, gone, top);
    var oldId, newId := result[i].0, result[i].1;
    MergeKeeps(names, tables, oldId, newId, top);
    if AllMerged(tables, tables1, oldId, newId) {
      RepairGoesOn(names0, tables0, names, tables, top, names - {oldId}, tables1, oldId, newId);
      forall x | x in gone
        ensures Unused(tables1, x)
      {
        assert x !in names && newId in names;
        NoTagStays(tables, tables1, newId, x);
      }
      assert result[..i + 1] == result[..i] + [result[i]];
      forall k | 0 <= k < |tables1|
        ensures tables1[k] == MergedAll(tables0[k], result[..i + 1])
      {
        MergedAllSnoc(tables0[k], result[..i], result[i]);
      }
      assert names - {oldId} == names0 - (gone + {oldId});
      forall x
        ensures x in gone + {oldId} <==> exists k :: 0 <= k < i + 1 && result[k].0 == x
      {
      }
    }
  }

  // Stopped between two duplicates or inside the next one.
  ghost predicate Stopped(names: Names, tables: seq<Table>, result: seq<(nat, nat)>, i: nat,
      names1: Names, tables1: seq<Table>)
  {
    || (names1 == names && tables1 == tables)
    || (i < |result| && Stages(tables, tables1, result[i].0, result[i].1)
        && (names1 == names
            || (names1 == names - {result[i].0} && AllMerged(tables, tables1, result[i].0, result[i].1))))
  }

  lemma {:induction false} StopHere(names0: Names, tables0: seq<Table>, names: Names, tables: seq<Table>,
      result: seq<(nat, nat)>, i: nat, gone: set<nat>, top: nat, names1: Names, tables1: seq<Table>)
    requires SoFar(names0, tables0, names, tables, result, i, gone, top)
               && Stopped(names, tables, result, i, names1, tables1)
    ensures Kept(names0, tables0, names1, tables1) && OnlyAmbiguousLost(names0, tables0, tables1, top)
    ensures forall x :: x in names1 ==> x in names0 && names1[x] == names0[x]
    ensures forall x :: x in names0 && x !in names1 ==>
              && x <= top && (exists y :: y in names1 && y < x && names1[y] == names0[x])
              && Unused(tables1, x)
    ensures i == |result| ==> forall x, y :: x in names && y in names && x < y <= top ==> names[x] != names[y]
  {
    hide SoFar, Stopped, Duplicates, MergedAll, Unused, Kept, OnlyAmbiguousLost, Repairing;
    StoppedKeeps(names0, tables0, names, tables, result, i, gone, top, names1, tables1);
    StoppedNames(names0, tables0, names, tables, result, i, gone, top, names1, tables1);
    RepairedSoFar(names0, tables0, names1, tables1, top);
  }

  lemma {:induction false} StoppedKeeps(names0: Names, tables0: seq<Table>, names: Names, tables: seq<Table>,
      result: seq<(nat, nat)>, i: nat, gone: set<nat>, top: nat, names1: Names, tables1: seq<Table>)
    requires SoFar(names0, tables0, names, tables, result, i, gone, top)
               && Stopped(names, tables, result, i, names1, tables1)
    ensures Repairing(names0, tables0, names1, tables1, top)
    ensures forall x :: x in names0 && x !in names1 ==> Unused(tables1, x)
  {
    hide Duplicates, MergedAll, Unused, OnlyNewTag, Stages, Merged, AllMerged, Repairing;
    if names1 != names || tables1 != tables {
      var oldId, newId := result[i].0, result[i].1;
      NextIsThere(names0, tables0, names, tables, result, i, gone, top);
      RepairGoesOn(names0, tables0, names, tables, top, names1, tables1, oldId, newId);
      forall x | x in gone
        ensures Unused(tables1, x)
      {
        NoTagStays(tables, tables1, newId, x);
      }
    }
  }

  lemma {:induction false} StoppedNames(names0: Names, tables0: seq<Table>, names: Names, tables: seq<Table>,
      result: seq<(nat, nat)>, i: nat, gone: set<nat>, top: nat, names1: Names, tables1: seq<Table>)
    requires SoFar(names0, tables0, names, tables, result, i, gone, top)
               && Stopped(names, tables, result, i, names1, tables1)
    ensures forall x :: x in names0 && x !in names1 ==>
              x <= top && exists y :: y in names1 && y < x && names1[y] == names0[x]
    ensures i == |result| ==> forall x, y :: x in names && y in names && x < y <= top ==> names[x] != names[y]
  {
    hide Duplicates, MergedAll, Unused, Stages, AllMerged, Repairing;
    var all := if names1 == names then gone else gone + {result[i].0};
    assert names1 == names0 - all;
    Replaced(names0, top, result, all);
  }

  lemma {:induction false} RepairedSoFar(names0: Names, tables0: seq<Table>, names: Names, tables: seq<Table>, top: nat)
    requires Repairing(names0, tables0, names, tables, top)
    ensures Kept(names0, tables0, names, tables) && OnlyAmbiguousLost(names0, tables0, tables, top)
    ensures forall x :: x in names ==> x in names0 && names[x] == names0[x]
  {
  }

  lemma {:induction false} Repaired(names0: Names, tables0: seq<Table>, names: Names, tables: seq<Table>, top: nat,
      result: seq<(nat, nat)>, gone: set<nat>)
    requires SoFar(names0, tables0, names, tables, result, |result|, gone, top)
    ensures |tables| == |tables0| && forall k :: 0 <= k < |tables| ==> tables[k] == MergedAll(tables0[k], result)
    ensures result == Duplicates(names0, top) && NoRivals(names0, names, tables, top)
  {
    hide MergedAll, Duplicates, NoTag, OnePerOwner, Repairing, Unused;
    assert result[..|result|] == result;
    DuplicatesApart(names0, top);
    forall x, k | x in names && x <= top && IsDouble(names0, top, names[x]) && 0 <= k < |tables|
      ensures OnePerOwner(tables[k], Tag(x))
    {
      DoubleIsMerged(names0, top, x);
      var j :| 0 <= j < |result| && (result[j].0 == x || result[j].1 == x);
      MergedAllTags(tables0[k], result);
    }
  }

  // ---------------------------------------------------------------------------
  // Closing the gaps between the ids

  lemma {:induction false} HasLeast(s: set<nat>, x: nat)
    requires x in s
    ensures exists least :: least in s && forall y :: y in s ==> least <= y
    decreases x
  {
    if y :| y in s && y < x {
      HasLeast(s, y);
    } else {
      assert forall y :: y in s ==> x <= y;
    }
  }

  // The ids up to top that are not taken.
  method FreeIds(names: Names, ids: seq<nat>, top: nat) returns (freemap: set<nat>)
    requires 0 !in names && forall x :: x in ids <==> x in names && x <= top
    requires forall i, j :: 0 <= i < j < |ids| ==> ids[i] > ids[j]
    ensures forall x :: x in freemap <==> 1 <= x <= top && x !in names
  {
    freemap := {};
    for i := 1 to top + 1
      invariant forall x :: x in freemap <==> 1 <= x < i
    {
      freemap := freemap + {i};
    }
    for i := 0 to |ids|
      invariant forall x :: x in freemap <==> 1 <= x <= top && x !in ids[..i]
    {
      assert ids[i] in ids;
      assert ids[i] in freemap;
      freemap := freemap - {ids[i]};
    }
    assert ids[..|ids|] == ids;
  }

  // *freemap.begin()
  method Least(freemap: set<nat>) returns (least: nat)
    requires freemap != {}
    ensures least in freemap && forall x :: x in freemap ==> least <= x
  {
    var some :| some in freemap;
    HasLeast(freemap, some);
    least :| least in freemap && forall x :: x in freemap ==> least <= x;
  }

  // Some tables have the new tag already, the others still the old one.
  ghost predicate Partly(whole: seq<Table>, tables: seq<Table>, oldId: nat, newId: nat) {
    exists i :: 0 <= i <= |whole| && tables == AllRetagged(whole, oldId, newId)[..i] + whole[i..]
  }

  // One id in all tables, and then in the names.
  method MoveId(db: Database, oldId: nat, newId: nat, ghost stop: bool) returns (er: Status)
    requires oldId in db.names && newId !in db.names
    modifies db
    ensures db.failed == (old(db.failed) || er != Success)
    ensures er == Success ==>
              db.names == Moved(old(db.names), oldId, newId) && db.tables == AllRetagged(old(db.tables), oldId, newId)
    ensures er != Success ==> db.names == old(db.names) && Partly(old(db.tables), db.tables, oldId, newId)
    ensures |db.tables| == old(|db.tables|) && (!stop ==> db.late == old(db.late))
  {
    hide Retagged, AllRetagged;
    ghost var before := db.tables;
    RetagStep(before, oldId, newId, 0);
    for i := 0 to |db.tables|
      invariant db.failed == old(db.failed) && (!stop ==> db.late == old(db.late))
      invariant db.names == old(db.names) && |db.tables| == |before|
      invariant db.tables == AllRetagged(before, oldId, newId)[..i] + before[i..]
    {
      RetagStep(before, oldId, newId, i);
      er := db.Retag(i, oldId, newId, stop);
      if er != Success {
        return;
      }
    }
    er := db.RenameId(oldId, newId, stop);
  }

  lemma {:induction false} RetagStep(tables: seq<Table>, oldId: nat, newId: nat, i: nat)
    requires i <= |tables|
    ensures var after := AllRetagged(tables, oldId, newId);
            var s := after[..i] + tables[i..];
            && (i == 0 ==> s == tables) && (i == |tables| ==> s == after)
            && (i < |tables| ==>
                && s[i] == tables[i]
                && s[i := Retagged(tables[i], Tag(oldId), Tag(newId))] == after[..i + 1] + tables[i + 1..])
  {
  }

  lemma {:induction false} MoveLowIds(names: Names, top: nat, oldId: nat, newId: nat)
    requires oldId in names && oldId <= top && newId <= top
    ensures LowIds(Moved(names, oldId, newId), top) == LowIds(names, top) - {oldId} + {newId}
  {
  }

  lemma {:induction false} StartOfDefrag(names: Names, tables: seq<Table>, top: nat, result: seq<nat>)
    requires 0 !in names && result == IdsDown(names, top)
    ensures Compacting(LowIds(names, top), LowIds(names, top), result, 0)
    ensures Placed(names, names, map x | x in names :: x)
    ensures NoStrays(names, tables, top) ==> Faithful(names, tables, names, tables, top)
    ensures CountUpTo(names, top) == |LowIds(names, top)|
    ensures forall n: nat :: n <= top ==> CountUpTo(names, top) - CountUpTo(names, n) == |Over(LowIds(names, top), n)|
  {
    var place := map x | x in names :: x;
    forall y | y in names
      ensures y in place.Values
    {
      assert place[y] == y;
    }
    var start := LowIds(names, top);
    forall n: nat | n <= top
      ensures CountUpTo(names, top) - CountUpTo(names, n) == |Over(start, n)|
    {
      WorkCounted(start, n);
      assert (set x | x in start && x <= n) == set x | x in names && x <= n;
    }
  }

  // What holds between two moves: the ids not looked at yet are where they were, the others fill
  // 1..m, and every name and every row is accounted for.
  ghost predicate Halfway(names0: Names, tables0: seq<Table>, names: Names, tables: seq<Table>, top: nat,
                          rest: seq<nat>, m: nat, place: map<nat, nat>) {
    && Compacting(LowIds(names0, top), LowIds(names, top), rest, m)
    && Placed(names0, names, place)
    && (forall x :: x in names0 && (x > top || x in rest) ==> place[x] == x)
    && (NoStrays(names0, tables0, top) ==> Faithful(names0, tables0, names, tables, top))
  }

  lemma {:induction false} HalfwayAtStart(names: Names, tables: seq<Table>, top: nat, result: seq<nat>)
    requires 0 !in names && result == IdsDown(names, top)
    ensures Halfway(names, tables, names, tables, top, result, 0, map x | x in names :: x)
  {
    hide Compacting, Placed, NoStrays, Faithful, LowIds;
    StartOfDefrag(names, tables, top, result);
  }

  lemma {:induction false} HalfwayStep(names0: Names, tables0: seq<Table>, names: Names, tables: seq<Table>, top: nat,
                                       rest: seq<nat>, m: nat, place: map<nat, nat>, gap: nat)
    requires Halfway(names0, tables0, names, tables, top, rest, m, place) && rest != []
    requires 1 <= gap < rest[0] <= top && gap !in names && forall x :: 1 <= x < gap ==> x in names
    ensures rest[0] in names
    ensures Halfway(names0, tables0, Moved(names, rest[0], gap), AllRetagged(tables, rest[0], gap), top,
                    rest[1..], gap, place[rest[0] := gap])
  {
    hide Compacting, Placed, NoStrays, Faithful, Moved, AllRetagged;
    var next := rest[0];
    NextInPlace(names0, names, top, rest, m, gap);
    MoveDown(LowIds(names0, top), LowIds(names, top), rest, m, gap);
    MoveLowIds(names, top, next, gap);
    MoveIsPlaced(names0, names, place, next, gap);
    if NoStrays(names0, tables0, top) {
      MoveIsFaithful(names0, tables0, names, tables, top, next, gap);
    }
  }

  lemma {:induction false} NextInPlace(names0: Names, names: Names, top: nat, rest: seq<nat>, m: nat, gap: nat)
    requires Compacting(LowIds(names0, top), LowIds(names, top), rest, m) && rest != []
    requires gap < rest[0] <= top && gap !in names && forall x :: 1 <= x < gap ==> x in names
    ensures rest[0] in names && rest[0] in names0 && rest[0] !in rest[1..]
    ensures gap !in LowIds(names, top) && forall x :: 1 <= x < gap ==> x in LowIds(names, top)
  {
    assert rest[0] in rest;
    assert rest[0] in LowIds(names, top) && rest[0] in LowIds(names0, top);
  }

  lemma {:induction false} MovedIds(names: Names, oldId: nat, newId: nat)
    requires oldId in names
    ensures forall x :: x in Moved(names, oldId, newId) <==> x == newId || (x in names && x != oldId)
  {
  }

  lemma {:induction false} HalfwayAccounts(names0: Names, tables0: seq<Table>, names: Names, tables: seq<Table>,
      top: nat, rest: seq<nat>, m: nat, place: map<nat, nat>)
    requires Halfway(names0, tables0, names, tables, top, rest, m, place)
    ensures Placed(names0, names, place) && forall x :: x in names0 && x > top ==> place[x] == x
    ensures NoStrays(names0, tables0, top) ==> Faithful(names0, tables0, names, tables, top)
  {
    hide Compacting, NoStrays, Faithful;
  }

  // Nothing is left to move below the next id.
  lemma {:induction false} HalfwayAtEnd(names0: Names, tables0: seq<Table>, names: Names, tables: seq<Table>, top: nat,
      rest: seq<nat>, m: nat, place: map<nat, nat>)
    requires Halfway(names0, tables0, names, tables, top, rest, m, place)
    requires rest != [] ==> rest[0] <= top && forall x :: 1 <= x < rest[0] ==> x in names
    ensures var n := |LowIds(names0, top)|;
              LowIds(names, top) == UpTo(n) && |Over(LowIds(names0, top), n)| == n - |rest|
  {
    hide Placed, NoStrays, Faithful, Compacting;
    assert rest != [] ==> forall x :: 1 <= x < rest[0] ==> x in LowIds(names, top);
    Compacted(LowIds(names0, top), LowIds(names, top), rest, m);
  }

  lemma {:induction false} CountWithin(names: Names, top: nat, ids: seq<nat>)
    requires 0 !in names && ids == IdsDown(names, top)
    ensures CountUpTo(names, top) == |ids| == |LowIds(names, top)| <= top
    ensures CountUpTo(names, top) - CountUpTo(names, |ids|) == |Over(LowIds(names, top), |ids|)|
  {
    hide IdsDown, CountUpTo, UpTo, Compacting, Placed, Faithful, NoStrays, Over;
    SubsetSize(LowIds(names, top), UpTo(top));
    ElementsSize(ids);
    assert Elements(ids) == LowIds(names, top);
    StartOfDefrag(names, [], top, ids);
  }

  lemma {:induction false} NextOfRest(names0: Names, tables0: seq<Table>, names: Names, tables: seq<Table>, top: nat,
                                       rest: seq<nat>, m: nat, place: map<nat, nat>)
    requires Halfway(names0, tables0, names, tables, top, rest, m, place) && rest != []
    ensures rest[0] in names
  {
    hide Placed, NoStrays, Faithful;
    assert rest[0] in rest;
    assert rest[0] in LowIds(names, top);
  }

  method MoveNext(db: Database, freemap: set<nat>, oldId: nat, newId: nat,
                  ghost names: Names, ghost before: seq<Table>, ghost top: nat, ghost rest: seq<nat>, ghost m: nat,
                  ghost place: map<nat, nat>, ghost stop: bool)
    returns (er: Status, free: set<nat>)
    requires forall x :: x in freemap <==> 1 <= x <= top && x !in db.names
    requires Halfway(names, before, db.names, db.tables, top, rest, m, place)
    requires rest != [] && rest[0] == oldId <= top
    requires newId in freemap && newId < oldId && forall x :: x in freemap ==> newId <= x
    modifies db
    ensures db.failed == (old(db.failed) || er != Success)
    ensures er == Success ==>
              && (forall x :: x in free <==> 1 <= x <= top && x !in db.names)
              && Halfway(names, before, db.names, db.tables, top, rest[1..], newId, place[oldId := newId])
              && |rest[1..]| + |Over(LowIds(names, top), |LowIds(names, top)|)| >= |LowIds(names, top)|
    ensures !stop ==> db.late == old(db.late)
    ensures er != Success ==> db.names == old(db.names) && Partly(old(db.tables), db.tables, oldId, newId)
  {
    hide Partly, Kept, Faithful, NoStrays, Placed, LowIds, Over, Moved, AllRetagged, Compacting;
    free := freemap - {newId};
    HalfwayStep(names, before, db.names, db.tables, top, rest, m, place, newId);
    MovedIds(db.names, oldId, newId);
    er := MoveId(db, oldId, newId, stop);
    if er != Success {
      return;
    }
    free := free + {oldId};
    NoMoreThanCounted(LowIds(names, top), LowIds(db.names, top), rest[1..], newId);
  }

  // The ids from above, those that are free, and how many moves there will be if they can be counted.
  method Survey(db: Database)
    returns (er: Status, result: seq<nat>, freemap: set<nat>, toMove: nat, ghost counted: bool)
    requires 0 !in db.names
    modifies db`failed
    ensures !old(db.failed) ==> (db.failed <==> er != Success || !counted)
    ensures er == Success ==>
              && result == IdsDown(db.names, MAX_ID) && |result| == |LowIds(db.names, MAX_ID)|
              && (forall x :: x in result ==> x <= MAX_ID)
              && (forall x :: x in freemap <==> 1 <= x <= MAX_ID && x !in db.names)
    ensures counted ==> toMove == |Over(LowIds(db.names, MAX_ID), |LowIds(db.names, MAX_ID)|)|
  {
    hide IdsDown, CountUpTo, LowIds, Over;
    toMove, counted, result, freemap := 0, false, [], {};
    var ids, work;
    er, ids := db.SelectIds(MAX_ID);
    if er != Success {
      return;
    }
    CountWithin(db.names, MAX_ID, ids);
    freemap := FreeIds(db.names, ids, MAX_ID);
    er, work := db.SelectWork(MAX_ID);
    if er == Success {
      counted, toMove := true, work;
    }
    er, result := db.SelectIds(MAX_ID);
  }

  // The tables are whole but for a single move, to an id that is still free.
  ghost predicate CutShort(whole: seq<Table>, names: Names, tables: seq<Table>) {
    exists oldId: nat, newId: nat ::
      && 1 <= newId < oldId <= MAX_ID && oldId in names && newId !in names
      && Partly(whole, tables, oldId, newId)
  }

  // No name is lost, whatever fails, and if no row had the tag of a free id every row keeps its name
  // but for the rows of one move, the one that failed.  Without failure they all do, wherever the
  // user stops it.  If nobody does, the ids are 1..n at the end, and the moves were as many as there
  // were ids above n, which is what was counted beforehand.
  method Defrag(db: Database, signal: Signal)
    returns (er: Status, moves: nat, toMove: nat, ghost counted: bool, ghost place: map<nat, nat>,
             ghost whole: seq<Table>)
    requires 0 !in db.names
    modifies db, signal
    ensures !old(db.failed) ==> (db.failed <==> er != Success || !counted)
    ensures Placed(old(db.names), db.names, place) && forall x :: x in old(db.names) && x > MAX_ID ==> place[x] == x
    ensures old(NoStrays(db.names, db.tables, MAX_ID)) ==>
              Faithful(old(db.names), old(db.tables), db.names, whole, MAX_ID)
    ensures old(signal.quit) ==> db.names == old(db.names) && db.tables == old(db.tables)
    ensures db.late == old(db.late)
    ensures whole == db.tables || (er != Success && CutShort(whole, db.names, db.tables))
    ensures er == Success && !signal.quit ==>
              var n := |LowIds(old(db.names), MAX_ID)|;
              LowIds(db.names, MAX_ID) == UpTo(n) && moves == |Over(LowIds(old(db.names), MAX_ID), n)|
    ensures counted ==>
              toMove == |Over(LowIds(old(db.names), MAX_ID), |LowIds(old(db.names), MAX_ID)|)| && moves <= toMove
  {
    hide IdsDown, Kept, Faithful, NoStrays, Placed, Compacting, LowIds, CountUpTo, UpTo, Over, Moved, AllRetagged,
         Descending, CutShort, Halfway;
    var top := MAX_ID;
    moves, toMove, counted := 0, 0, false;
    ghost var names, before := db.names, db.tables;
    place, whole := map x | x in names :: x, before;
    HalfwayAtStart(names, before, top, IdsDown(names, top));
    HalfwayAccounts(names, before, names, before, top, IdsDown(names, top), 0, place);
    var result, freemap;
    er, result, freemap, toMove, counted := Survey(db);
    if er != Success {
      return;
    }
    ghost var m;
    er, moves, m, place, whole := CloseGaps(db, signal, result, freemap, names, before);
    HalfwayAccounts(names, before, db.names, whole, top, result[moves..], m, place);
    if er != Success || signal.quit {
      return;
    }
    assert moves < |result| ==> result[moves] in result;
    HalfwayAtEnd(names, before, db.names, db.tables, top, result[moves..], m, place);
    er := db.Change(signal.quit);
  }

  // What the end of it means: the ids are 1 to as many as there were.
  lemma {:induction false} OneToCount(names0: Names, names: Names)
    requires LowIds(names, MAX_ID) == UpTo(|LowIds(names0, MAX_ID)|)
    ensures var n := |set x | x in names0 && x <= MAX_ID|; forall x :: x in names && x <= MAX_ID <==> 1 <= x <= n
  {
    forall x
      ensures x in names && x <= MAX_ID <==> x in LowIds(names, MAX_ID)
    {
    }
  }

  // The next id from above into the least gap, as long as that is below it.
  method CloseGaps(db: Database, signal: Signal, result: seq<nat>, free: set<nat>, ghost names: Names,
      ghost before: seq<Table>)
    returns (er: Status, moves: nat, ghost m: nat, ghost place: map<nat, nat>, ghost whole: seq<Table>)
    requires forall x :: x in free <==> 1 <= x <= MAX_ID && x !in db.names
    requires Halfway(names, before, db.names, db.tables, MAX_ID, result, 0, map x | x in names :: x)
    requires forall x :: x in result ==> x <= MAX_ID
    requires |result| == |LowIds(names, MAX_ID)|
    modifies db, signal
    ensures db.failed == (old(db.failed) || er != Success)
    ensures old(signal.quit) ==> signal.quit && db.names == old(db.names) && db.tables == old(db.tables)
    ensures db.late == old(db.late)
    ensures moves <= |result| && moves <= |Over(LowIds(names, MAX_ID), |result|)|
    ensures Halfway(names, before, db.names, whole, MAX_ID, result[moves..], m, place)
    ensures if er == Success then whole == db.tables else CutShort(whole, db.names, db.tables)
    ensures er == Success && !signal.quit && moves < |result| ==> forall x :: 1 <= x < result[moves] ==> x in db.names
  {
    hide Kept, Faithful, NoStrays, Placed, Compacting, LowIds, Over, Moved, AllRetagged, Halfway, Partly;
    var freemap := free;
    er, moves, m, place, whole := Success, 0, 0, map x | x in names :: x, db.tables;
    assert result[0..] == result;
    while true
      invariant old(signal.quit) ==> signal.quit && db.names == old(db.names) && db.tables == old(db.tables)
      invariant 0 <= moves <= |result| && er == Success && whole == db.tables
      invariant db.late == old(db.late) && db.failed == old(db.failed)
      invariant forall x :: x in freemap <==> 1 <= x <= MAX_ID && x !in db.names
      invariant Halfway(names, before, db.names, db.tables, MAX_ID, result[moves..], m, place)
      invariant moves <= |Over(LowIds(names, MAX_ID), |result|)|
      decreases |result| - moves
    {
      var quit := signal.Poll();
      if quit || moves == |result| {
        break;
      }
      var oldId := result[moves];
      assert result[moves] in result && result[moves..][1..] == result[moves + 1..];
      if freemap == {} {
        break;
      }
      var newId := Least(freemap);
      assert oldId in db.names by { NextOfRest(names, before, db.names, db.tables, MAX_ID, result[moves..], m, place); }
      if newId >= oldId {
        break;
      }
      er, freemap := MoveNext(db, freemap, oldId, newId, names, before, MAX_ID, result[moves..], m, place,
          signal.quit);
      if er != Success {
        return;
      }
      place, m, moves, whole := place[oldId := newId], newId, moves + 1, db.tables;
    }
  }
}
