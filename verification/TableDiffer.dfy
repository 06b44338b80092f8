/**
 The row differ of lib/table_differ.py against the table a UI holds, including the way
 QmlBridge.sync_table (apps/hud/ui/overlays/base/qml_bridge.py) drops the baseline when a
 payload could not be delivered.
 */
module TableDiffer {
  import opened Common

  datatype RowPatch<Row> = RowPatch(index: nat, row: Row)

  /** What update returns; NoChange is Python's None. */
  datatype Payload<Row> = NoChange | Reset(rows: seq<Row>) | Patch(patches: seq<RowPatch<Row>>)

  /** The differing rows among the first n, in index order. */
  function Changes<Row(==)>(old_: seq<Row>, new_: seq<Row>, n: nat): seq<RowPatch<Row>>
    requires n <= |old_| && |old_| == |new_|
  {
    if n == 0 then []
    else
      var init := Changes(old_, new_, n - 1);
      if old_[n - 1] != new_[n - 1] then init + [RowPatch(n - 1, new_[n - 1])] else init
  }

  function Diff<Row(==)>(baseline: Option<seq<Row>>, rows: seq<Row>): Payload<Row> {
    if baseline.None? || |baseline.value| != |rows| then Reset(rows)
    else
      var patches := Changes(baseline.value, rows, |rows|);
      if patches == [] then NoChange else Patch(patches)
  }

  /** The UI side: a patch whose index it does not have is dropped. */
  function ApplyPatches<Row>(table: seq<Row>, patches: seq<RowPatch<Row>>): (t: seq<Row>)
    ensures |t| == |table|
    decreases |patches|
  {
    if patches == [] then table
    else
      var t := if patches[0].index < |table| then table[patches[0].index := patches[0].row] else table;
      ApplyPatches(t, patches[1..])
  }

  function Apply<Row>(table: seq<Row>, payload: Payload<Row>): seq<Row> {
    match payload
    case NoChange => table
    case Reset(rows) => rows
    case Patch(patches) => ApplyPatches(table, patches)
  }

  // ---------------------------------------------------------------------
  // Patches
  // ---------------------------------------------------------------------

  ghost predicate DistinctIndices<Row>(patches: seq<RowPatch<Row>>) {
    forall i, j :: 0 <= i < j < |patches| ==> patches[i].index != patches[j].index
  }

  /** Patches list exactly the differing indices, ascending, each with the new row. */
  lemma {:induction false} ChangesAreTheDifferences<Row>(old_: seq<Row>, new_: seq<Row>, n: nat)
    requires n <= |old_| && |old_| == |new_|
    ensures var ps := Changes(old_, new_, n);
            && (forall i, j :: 0 <= i < j < |ps| ==> ps[i].index < ps[j].index)
            && (forall i :: 0 <= i < |ps| ==> ps[i].index < n && ps[i].row == new_[ps[i].index]
                                              && old_[ps[i].index] != new_[ps[i].index])
            && (forall k :: 0 <= k < n && old_[k] != new_[k] ==>
                  exists i :: 0 <= i < |ps| && ps[i].index == k)
  {
    if n == 0 {
    } else {
      ChangesAreTheDifferences(old_, new_, n - 1);
      var init, ps := Changes(old_, new_, n - 1), Changes(old_, new_, n);
      assert ps == if old_[n - 1] != new_[n - 1] then init + [RowPatch(n - 1, new_[n - 1])] else init;
      hide Changes;
      forall k | 0 <= k < n && old_[k] != new_[k]
        ensures exists i :: 0 <= i < |ps| && ps[i].index == k
      {
        if k < n - 1 {
          var i :| 0 <= i < |init| && init[i].index == k;
          assert ps[i] == init[i];
        } else {
          assert ps[|init|].index == k;
        }
      }
    }
  }

  /** With distinct indices, a patched cell holds its patch and every other cell is unchanged. */
  lemma {:induction false} PatchedCell<Row>(table: seq<Row>, patches: seq<RowPatch<Row>>, k: nat)
    requires DistinctIndices(patches) && k < |table|
    ensures forall i :: 0 <= i < |patches| && patches[i].index == k ==>
              ApplyPatches(table, patches)[k] == patches[i].row
    ensures (forall i :: 0 <= i < |patches| ==> patches[i].index != k) ==>
              ApplyPatches(table, patches)[k] == table[k]
    decreases |patches|
  {
    if patches == [] {
    } else {
      var rest := patches[1..];
      var t := if patches[0].index < |table| then table[patches[0].index := patches[0].row] else table;
      PatchedCell(t, rest, k);
      assert forall i :: 0 <= i < |rest| ==> rest[i] == patches[i + 1];
    }
  }

  /** Any reordering of a patch list has the same effect on any table. */
  lemma PatchOrderIrrelevant<Row>(table: seq<Row>, ps: seq<RowPatch<Row>>, qs: seq<RowPatch<Row>>)
    requires DistinctIndices(ps) && DistinctIndices(qs)
    requires forall i :: 0 <= i < |ps| ==> exists j :: 0 <= j < |qs| && qs[j] == ps[i]
    requires forall j :: 0 <= j < |qs| ==> exists i :: 0 <= i < |ps| && ps[i] == qs[j]
    ensures ApplyPatches(table, ps) == ApplyPatches(table, qs)
  {
    forall k | 0 <= k < |table|
      ensures ApplyPatches(table, ps)[k] == ApplyPatches(table, qs)[k]
    {
      PatchedCell(table, ps, k);
      PatchedCell(table, qs, k);
      if i :| 0 <= i < |ps| && ps[i].index == k {
        var j :| 0 <= j < |qs| && qs[j] == ps[i];
      }
    }
  }

  /**
   What is sent: the whole table if and only if there is no baseline of the same length; nothing if
   and only if nothing changed; and otherwise patches of exactly the differing rows, in order.
   */
  lemma DiffSends<Row>(baseline: Option<seq<Row>>, rows: seq<Row>)
    ensures var p := Diff(baseline, rows);
            && (p.Reset? <==> baseline.None? || |baseline.value| != |rows|)
            && (p.Reset? ==> p.rows == rows)
            && (p.NoChange? <==> baseline == Some(rows))
            && (p.Patch? ==>
                  && (forall i, j :: 0 <= i < j < |p.patches| ==> p.patches[i].index < p.patches[j].index)
                  && (forall i :: 0 <= i < |p.patches| ==>
                        var k := p.patches[i].index;
                        k < |rows| && p.patches[i].row == rows[k] && rows[k] != baseline.value[k])
                  && (forall k :: 0 <= k < |rows| && rows[k] != baseline.value[k] ==>
                        exists i :: 0 <= i < |p.patches| && p.patches[i].index == k))
  {
    if baseline.Some? && |baseline.value| == |rows| {
      ChangesAreTheDifferences(baseline.value, rows, |rows|);
      PayloadRebuildsRows(baseline.value, rows);
    }
  }

  /** A payload diffed against the table the UI holds turns it into the new rows. */
  lemma PayloadRebuildsRows<Row>(table: seq<Row>, rows: seq<Row>)
    ensures Apply(table, Diff(Some(table), rows)) == rows
    ensures Diff(Some(table), rows) == NoChange <==> table == rows
  {
    if |table| == |rows| {
      var ps := Changes(table, rows, |rows|);
      ChangesAreTheDifferences(table, rows, |rows|);
      forall k | 0 <= k < |table|
        ensures ApplyPatches(table, ps)[k] == rows[k]
      {
        PatchedCell(table, ps, k);
      }
      assert ApplyPatches(table, ps) == rows;
    }
  }

  // ---------------------------------------------------------------------
  // Whole runs against a UI
  // ---------------------------------------------------------------------

  /** The UI loses its rows, the differ is invalidated, or a table is synchronised. */
  datatype Action<Row> =
    | Lose(table: seq<Row>)
    | Invalidate
    | Sync(rows: seq<Row>, reachable: bool)

  datatype Link<Row> = Link(baseline: Option<seq<Row>>, table: seq<Row>, lost: bool)

  /** sync_table: diff, push, and drop the baseline if the push reached nobody. */
  function Act<Row(==)>(l: Link<Row>, a: Action<Row>): Link<Row> {
    match a
    case Lose(table) => l.(table := table, lost := true)
    case Invalidate => l.(baseline := None, lost := false)
    case Sync(rows, reachable) =>
      var payload := Diff(l.baseline, rows);
      if payload.NoChange? then l.(baseline := Some(rows))
      else if reachable then l.(baseline := Some(rows), table := Apply(l.table, payload))
      else l.(baseline := None)
  }

  function Play<Row(==)>(actions: seq<Action<Row>>): Link<Row> {
    if actions == [] then Link(None, [], false)
    else Act(Play(actions[..|actions| - 1]), actions[|actions| - 1])
  }

  /** Every loss is followed by an invalidate before the next synchronisation. */
  ghost predicate Disciplined<Row>(actions: seq<Action<Row>>) {
    forall i :: 0 <= i < |actions| && actions[i].Sync? ==> !Play(actions[..i]).lost
  }

  lemma {:induction false} BaselineIsTheTable<Row>(actions: seq<Action<Row>>)
    requires Disciplined(actions)
    ensures var l := Play(actions);
            !l.lost && l.baseline.Some? ==> l.baseline.value == l.table
  {
    if actions == [] {
    } else {
      var init, a := actions[..|actions| - 1], actions[|actions| - 1];
      assert forall i :: 0 <= i < |init| ==> actions[..i] == init[..i];
      BaselineIsTheTable(init);
      var l := Play(init);
      if a.Sync? && l.baseline.Some? {
        PayloadRebuildsRows(l.table, a.rows);
      }
    }
  }

  /**
   After every synchronisation of a disciplined run the UI shows the latest rows exactly when
   the payload could be delivered or the rows were there already.
   */
  lemma UiShowsLatestRows<Row>(actions: seq<Action<Row>>, rows: seq<Row>, reachable: bool)
    requires Disciplined(actions + [Sync(rows, reachable)])
    ensures Play(actions + [Sync(rows, reachable)]).table == rows
            <==> reachable || Play(actions).table == rows
  {
    var all := actions + [Sync(rows, reachable)];
    assert all[..|actions|] == actions;
    assert forall i :: 0 <= i < |actions| ==> all[..i] == actions[..i];
    BaselineIsTheTable(actions);
    var l := Play(actions);
    assert !l.lost;
    if l.baseline.Some? {
      PayloadRebuildsRows(l.table, rows);
    }
  }

  /**
   After a synchronisation the baseline is the rows just given if they were delivered or needed no
   delivery, so that giving them again sends nothing, and none if they were not, so that the next
   rows are sent in full; an invalidate drops it, and a loss at the UI does not touch it.
   */
  lemma BaselineAfter<Row>(l: Link<Row>, rows: seq<Row>, next: seq<Row>, reachable: bool)
    ensures var l' := Act(l, Sync(rows, reachable));
            if reachable || l.baseline == Some(rows) then l'.baseline == Some(rows) && Diff(l'.baseline, rows).NoChange?
            else l'.baseline.None? && l'.table == l.table && Diff(l'.baseline, next) == Reset(next)
    ensures Act(l, Invalidate) == Link(None, l.table, false)
    ensures Act(l, Lose(next)) == Link(l.baseline, next, true)
  {
    DiffSends(l.baseline, rows);
    DiffSends(Some(rows), rows);
  }

  // ---------------------------------------------------------------------
  // The differ object
  // ---------------------------------------------------------------------

  function CountResets<Row>(log: seq<Payload<Row>>): nat {
    if log == [] then 0 else CountResets(log[..|log| - 1]) + if log[|log| - 1].Reset? then 1 else 0
  }

  function CountUnchanged<Row>(log: seq<Payload<Row>>): nat {
    if log == [] then 0 else CountUnchanged(log[..|log| - 1]) + if log[|log| - 1].NoChange? then 1 else 0
  }

  function CountPatched<Row>(log: seq<Payload<Row>>): nat {
    if log == [] then 0
    else
      var p := log[|log| - 1];
      CountPatched(log[..|log| - 1]) + if p.Patch? then |p.patches| else 0
  }

  predicate NoEmptyPatch<Row>(log: seq<Payload<Row>>) {
    forall i :: 0 <= i < |log| && log[i].Patch? ==> |log[i].patches| > 0
  }

  lemma CountsAppend<Row>(log: seq<Payload<Row>>, p: Payload<Row>)
    ensures CountResets(log + [p]) == CountResets(log) + if p.Reset? then 1 else 0
    ensures CountUnchanged(log + [p]) == CountUnchanged(log) + if p.NoChange? then 1 else 0
    ensures CountPatched(log + [p]) == CountPatched(log) + if p.Patch? then |p.patches| else 0
  {
    assert (log + [p])[..|log|] == log;
  }

  method ChangedRows<Row(==)>(oldRows: seq<Row>, newRows: seq<Row>) returns (patches: seq<RowPatch<Row>>)
    requires |oldRows| == |newRows|
    ensures patches == Changes(oldRows, newRows, |newRows|)
  {
    patches := [];
    for i := 0 to |newRows|
      invariant patches == Changes(oldRows, newRows, i)
    {
      if oldRows[i] != newRows[i] {
        patches := patches + [RowPatch(i, newRows[i])];
      }
    }
  }

  class TableDiffer<Row(==)> {
    var rows: Option<seq<Row>>
    var resets: nat
    var unchangedUpdates: nat
    var patchedRows: nat
    var invalidations: nat
    ghost var log: seq<Payload<Row>>

    ghost predicate Valid()
      reads this
    {
      && resets == CountResets(log)
      && unchangedUpdates == CountUnchanged(log)
      && patchedRows == CountPatched(log)
      && NoEmptyPatch(log)
    }

    constructor ()
      ensures Valid() && rows == None && log == [] && invalidations == 0
    {
      rows, log := None, [];
      resets, unchangedUpdates, patchedRows, invalidations := 0, 0, 0, 0;
    }

    method Update(newRows: seq<Row>) returns (payload: Payload<Row>)
      requires Valid()
      modifies this
      ensures Valid() && log == old(log) + [payload]
      ensures payload == Diff(old(rows), newRows)
      ensures rows == Some(newRows) && invalidations == old(invalidations)
    {
      hide CountResets, CountUnchanged, CountPatched, Changes;
      var oldRows := rows;
      rows := Some(newRows);
      if oldRows.None? || |oldRows.value| != |newRows| {
        payload := Reset(newRows);
        resets := resets + 1;
      } else {
        var patches := ChangedRows(oldRows.value, newRows);
        if |patches| == 0 {
          payload := NoChange;
          unchangedUpdates := unchangedUpdates + 1;
        } else {
          payload := Patch(patches);
          patchedRows := patchedRows + |patches|;
        }
      }
      CountsAppend(log, payload);
      log := log + [payload];
    }

    method Invalidate()
      requires Valid()
      modifies this`rows, this`invalidations
      ensures Valid() && rows == None && invalidations == old(invalidations) + 1
    {
      invalidations := invalidations + 1;
      rows := None;
    }
  }

  function CountPatchPayloads<Row>(log: seq<Payload<Row>>): nat {
    if log == [] then 0 else CountPatchPayloads(log[..|log| - 1]) + if log[|log| - 1].Patch? then 1 else 0
  }

  /** Updates are resets, unchanged updates and patch payloads; a patch payload is never empty. */
  lemma {:induction false} UpdatesAddUp<Row>(log: seq<Payload<Row>>)
    requires NoEmptyPatch(log)
    ensures |log| == CountResets(log) + CountUnchanged(log) + CountPatchPayloads(log)
    ensures CountPatchPayloads(log) <= CountPatched(log)
  {
    if log == [] {
    } else {
      UpdatesAddUp(log[..|log| - 1]);
    }
  }
}
