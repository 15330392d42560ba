/** The stage-then-merge protocol (`load_to_db`). The batch replaces the
    staging table; the DELETE statement removes from the final table every
    row whose id is selected by joining staging to final (PRSN: any shared
    id; USGS: a shared id whose `updated_datetime` differs); the INSERT
    statement copies every staged row whose id the final table no longer
    holds; the row counts before and after are reported. */
module Merge {
  import opened Events

  datatype Source = Usgs | Prsn

  /** Whether a staged row `s` makes the stored row `d` with the same id
      stale. PRSN has no revision marker: always. USGS: when SQL's
      `s.updated_datetime <> d.updated_datetime` is true, which it never is
      when either marker is NULL. */
  predicate Stale(src: Source, s: Event, d: Event): (stale: bool)
    ensures src == Prsn ==> stale
    ensures src == Usgs ==> (stale <==> s.updated.Some? && d.updated.Some? && s.updated != d.updated)
    ensures src == Usgs && (s.updated == None || d.updated == None) ==> !stale
  {
    match src
    case Prsn => true
    case Usgs => s.updated.Some? && d.updated.Some? && s.updated.value != d.updated.value
  }

  /** The ids the DELETE subquery selects. */
  function EvictedIds(final: seq<Event>, stage: seq<Event>, src: Source): (ids: set<string>)
    ensures forall x :: x in ids <==>
      exists s, d :: s in stage && d in final && s.id == x && d.id == x && Stale(src, s, d)
  {
    set s, d | s in stage && d in final && s.id == d.id && Stale(src, s, d) :: d.id
  }

  /** `rows` without the rows whose id is in `ids`, in their original order. */
  function Without(rows: seq<Event>, ids: set<string>): (r: seq<Event>)
    ensures |r| <= |rows|
    ensures forall e :: e in r <==> e in rows && e.id !in ids
  {
    if rows == [] then []
    else (if rows[0].id in ids then [] else [rows[0]]) + Without(rows[1..], ids)
  }

  /** The final table after the DELETE statement. */
  function AfterDelete(final: seq<Event>, stage: seq<Event>, src: Source): (kept: seq<Event>)
    ensures |kept| <= |final|
    ensures forall e :: e in kept <==> e in final && e.id !in EvictedIds(final, stage, src)
  {
    Without(final, EvictedIds(final, stage, src))
  }

  /** The final table after DELETE then INSERT ... WHERE id NOT IN (final). */
  function MergeResult(final: seq<Event>, stage: seq<Event>, src: Source): seq<Event>
  {
    var kept := AfterDelete(final, stage, src);
    kept + Without(stage, Ids(kept))
  }

  /** What `load_to_db` prints: a zero delta reads "No records to update". */
  datatype Report = NoRecordsToUpdate | Counts(before: nat, delta: int, after: nat)

  function ReportOf(before: nat, after: nat): (r: Report)
    ensures r == NoRecordsToUpdate <==> before == after
    ensures r.Counts? ==> r.before == before && r.after == after && r.delta == after - before
    ensures r.Counts? ==> r.delta != 0 && r.before + r.delta == r.after
  {
    if after - before == 0 then NoRecordsToUpdate else Counts(before, after - before, after)
  }

  // ------------------------------------------------------- table lemmas

  lemma {:induction false} WithoutAppend(a: seq<Event>, b: seq<Event>, ids: set<string>)
    ensures Without(a + b, ids) == Without(a, ids) + Without(b, ids)
  {
    if a == [] {
      assert a + b == b;
    } else {
      assert (a + b)[0] == a[0];
      assert (a + b)[1..] == a[1..] + b;
      WithoutAppend(a[1..], b, ids);
    }
  }

  /** Removing ids the table does not hold changes nothing. */
  lemma {:induction false} WithoutNone(rows: seq<Event>, ids: set<string>)
    requires ids !! Ids(rows)
    ensures Without(rows, ids) == rows
  {
    if rows != [] {
      assert rows[0] in rows;
      assert Ids(rows[1..]) <= Ids(rows) by {
        forall x | x in Ids(rows[1..]) ensures x in Ids(rows) {
          var e :| e in rows[1..] && e.id == x;
          assert e in rows;
        }
      }
      WithoutNone(rows[1..], ids);
    }
  }

  /** Removing every id a table holds empties it. */
  lemma {:induction false} WithoutCovered(rows: seq<Event>, ids: set<string>)
    requires forall e :: e in rows ==> e.id in ids
    ensures Without(rows, ids) == []
  {
    if rows != [] {
      assert rows[0] in rows;
      WithoutCovered(rows[1..], ids);
    }
  }

  /** Only the ids a table holds matter to `Without`. */
  lemma {:induction false} WithoutRelevant(rows: seq<Event>, ids: set<string>, ids': set<string>)
    requires ids * Ids(rows) == ids' * Ids(rows)
    ensures Without(rows, ids) == Without(rows, ids')
  {
    if rows != [] {
      assert rows[0] in rows;
      assert Ids(rows[1..]) <= Ids(rows) by {
        forall x | x in Ids(rows[1..]) ensures x in Ids(rows) {
          var e :| e in rows[1..] && e.id == x;
          assert e in rows;
        }
      }
      assert rows[0].id in Ids(rows);
      assert rows[0].id in ids <==> rows[0].id in ids * Ids(rows);
      assert rows[0].id in ids' <==> rows[0].id in ids' * Ids(rows);
      forall x | x in Ids(rows[1..]) ensures x in ids <==> x in ids' {
        assert x in ids <==> x in ids * Ids(rows);
        assert x in ids' <==> x in ids' * Ids(rows);
      }
      assert ids * Ids(rows[1..]) == ids' * Ids(rows[1..]);
      WithoutRelevant(rows[1..], ids, ids');
    }
  }

  lemma {:induction false} WithoutUnique(rows: seq<Event>, ids: set<string>)
    requires UniqueIds(rows)
    ensures UniqueIds(Without(rows, ids))
  {
    if rows != [] {
      var rest := rows[1..];
      assert UniqueIds(rest) by {
        forall a, b | 0 <= a < |rest| && 0 <= b < |rest| && rest[a].id == rest[b].id ensures a == b {
          assert rows[a + 1].id == rows[b + 1].id;
        }
      }
      WithoutUnique(rest, ids);
      var head: seq<Event> := if rows[0].id in ids then [] else [rows[0]];
      assert rows[0].id !in Ids(rest);
      UniqueIdsAppend(head, Without(rest, ids));
    }
  }

  /** Deleting two id sets one after the other deletes their union. */
  lemma {:induction false} WithoutUnion(rows: seq<Event>, a: set<string>, b: set<string>)
    ensures Without(rows, a + b) == Without(Without(rows, a), b)
  {
    if rows != [] {
      WithoutUnion(rows[1..], a, b);
      var head: seq<Event> := if rows[0].id in a then [] else [rows[0]];
      assert Without(rows, a) == head + Without(rows[1..], a);
      WithoutAppend(head, Without(rows[1..], a), b);
      if head != [] {
        assert head[1..] == [];
      }
    }
  }

  /** When every row's id lies in exactly one of `x` and `z`, the two
      deletions split the table's bag of rows. */
  lemma {:induction false} WithoutPartition(rows: seq<Event>, x: set<string>, z: set<string>)
    requires forall i :: 0 <= i < |rows| ==> (rows[i].id in x <==> rows[i].id !in z)
    ensures multiset(Without(rows, x)) + multiset(Without(rows, z)) == multiset(rows)
  {
    if rows != [] {
      var h, t := rows[0], rows[1..];
      assert forall i :: 0 <= i < |t| ==> t[i] == rows[i + 1];
      WithoutPartition(t, x, z);
      var a, b := Without(t, x), Without(t, z);
      assert rows == [h] + t;
      if h.id in x {
        assert Without(rows, x) == a;
        assert Without(rows, z) == [h] + b;
        BagCons(h, b, a, t);
      } else {
        assert Without(rows, x) == [h] + a;
        assert Without(rows, z) == b;
        BagCons(h, a, b, t);
      }
    }
  }

  /** Adding a row to one part of a split adds it to the whole. */
  lemma BagCons(h: Event, a: seq<Event>, b: seq<Event>, t: seq<Event>)
    requires multiset(a) + multiset(b) == multiset(t)
    ensures multiset([h] + a) + multiset(b) == multiset([h] + t)
    ensures multiset(b) + multiset([h] + a) == multiset([h] + t)
  {
    assert multiset([h] + a) == multiset{h} + multiset(a);
    assert multiset([h] + t) == multiset{h} + multiset(t);
  }

  lemma UniqueIdsAppend(a: seq<Event>, b: seq<Event>)
    requires UniqueIds(a) && UniqueIds(b) && Ids(a) !! Ids(b)
    ensures UniqueIds(a + b)
  {
    var ab := a + b;
    forall i, j | 0 <= i < |ab| && 0 <= j < |ab| && ab[i].id == ab[j].id ensures i == j {
      if i < |a| {
        assert ab[i] == a[i];
        IdOf(a, i);
      } else {
        assert ab[i] == b[i - |a|];
        IdOf(b, i - |a|);
      }
      if j < |a| {
        assert ab[j] == a[j];
        IdOf(a, j);
      } else {
        assert ab[j] == b[j - |a|];
        IdOf(b, j - |a|);
      }
    }
  }

  lemma IdsAppend(a: seq<Event>, b: seq<Event>)
    ensures Ids(a + b) == Ids(a) + Ids(b)
  {
    assert forall e :: e in a + b <==> e in a || e in b;
  }

  // ------------------------------------------------------- merge lemmas

  /** PRSN: the final table becomes its rows whose id is not staged followed
      by every staged row. */
  lemma PrsnMergeContents(final: seq<Event>, stage: seq<Event>)
    ensures MergeResult(final, stage, Prsn) == Without(final, Ids(stage)) + stage
  {
    var ev := EvictedIds(final, stage, Prsn);
    assert ev * Ids(final) == Ids(stage) * Ids(final) by {
      forall x | x in Ids(stage) * Ids(final) ensures x in ev {
        var s :| s in stage && s.id == x;
        var d :| d in final && d.id == x;
        assert Stale(Prsn, s, d);
      }
    }
    WithoutRelevant(final, ev, Ids(stage));
    var kept := Without(final, Ids(stage));
    assert Ids(kept) !! Ids(stage);
    WithoutNone(stage, Ids(kept));
  }

  /** USGS, with unique ids in both tables: a stored row survives exactly when
      no staged row with its id carries a different marker, and a staged row
      is inserted exactly when every stored row with its id is stale. */
  lemma UsgsMergeContents(final: seq<Event>, stage: seq<Event>, e: Event)
    requires UniqueIds(final) && UniqueIds(stage)
    ensures e in AfterDelete(final, stage, Usgs) <==>
      e in final && forall s :: s in stage && s.id == e.id ==> !Stale(Usgs, s, e)
    ensures e in MergeResult(final, stage, Usgs) <==>
      || (e in final && forall s :: s in stage && s.id == e.id ==> !Stale(Usgs, s, e))
      || (e in stage && forall d :: d in final && d.id == e.id ==> Stale(Usgs, e, d))
  {
    var ev := EvictedIds(final, stage, Usgs);
    var kept := AfterDelete(final, stage, Usgs);
    if e in final && e.id in ev {
      var s, d :| s in stage && d in final && s.id == e.id && d.id == e.id && Stale(Usgs, s, d);
      UniqueRowOfId(final, d, e);
    }
    IdsAppend(kept, Without(stage, Ids(kept)));
    if e in stage {
      if e.id in Ids(kept) {
        var d :| d in kept && d.id == e.id;
        assert !Stale(Usgs, e, d);
      } else {
        forall d | d in final && d.id == e.id ensures Stale(Usgs, e, d) {
          assert d !in kept;
          var s, d' :| s in stage && d' in final && s.id == d.id && d'.id == d.id && Stale(Usgs, s, d');
          UniqueRowOfId(final, d, d');
          UniqueRowOfId(stage, s, e);
        }
      }
    }
  }

  lemma UniqueRowOfId(rows: seq<Event>, a: Event, b: Event)
    requires UniqueIds(rows) && a in rows && b in rows && a.id == b.id
    ensures a == b
  {
    var i :| 0 <= i < |rows| && rows[i] == a;
    var j :| 0 <= j < |rows| && rows[j] == b;
  }

  /** Merging keeps `id` a key of the final table, provided the batch has
      unique ids. */
  lemma MergeUnique(final: seq<Event>, stage: seq<Event>, src: Source)
    requires UniqueIds(final) && UniqueIds(stage)
    ensures UniqueIds(MergeResult(final, stage, src))
  {
    var kept := AfterDelete(final, stage, src);
    WithoutUnique(final, EvictedIds(final, stage, src));
    WithoutUnique(stage, Ids(kept));
    UniqueIdsAppend(kept, Without(stage, Ids(kept)));
  }

  /** Without unique staged ids the key is lost: two staged rows sharing a new
      id are both inserted. */
  lemma StagedDuplicatesBothInserted(final: seq<Event>, a: Event, b: Event, src: Source)
    requires a.id == b.id && a.id !in Ids(final)
    ensures MergeResult(final, [a, b], src) == final + [a, b]
    ensures !UniqueIds(MergeResult(final, [a, b], src))
  {
    assert EvictedIds(final, [a, b], src) !! Ids(final);
    WithoutNone(final, EvictedIds(final, [a, b], src));
    WithoutNone([a, b], Ids(final));
    var m := final + [a, b];
    assert m[|final|].id == m[|final| + 1].id;
  }

  /** Re-running a merge with the same batch changes nothing. For USGS this
      needs unique staged ids; for PRSN it holds for every batch. */
  lemma MergeIdempotent(final: seq<Event>, stage: seq<Event>, src: Source)
    requires src == Prsn || UniqueIds(stage)
    ensures MergeResult(MergeResult(final, stage, src), stage, src) == MergeResult(final, stage, src)
  {
    if src == Prsn {
      PrsnMergeIdempotent(final, stage);
    } else {
      UsgsMergeIdempotent(final, stage);
    }
  }

  lemma PrsnMergeIdempotent(final: seq<Event>, stage: seq<Event>)
    ensures MergeResult(MergeResult(final, stage, Prsn), stage, Prsn) == MergeResult(final, stage, Prsn)
  {
    var kept := Without(final, Ids(stage));
    PrsnMergeContents(final, stage);
    PrsnMergeContents(kept + stage, stage);
    PrsnRemergeStable(kept, stage);
  }

  lemma PrsnRemergeStable(kept: seq<Event>, stage: seq<Event>)
    requires Ids(kept) !! Ids(stage)
    ensures Without(kept + stage, Ids(stage)) + stage == kept + stage
  {
    var x := Ids(stage);
    WithoutAppend(kept, stage, x);
    WithoutNone(kept, x);
    assert forall e :: e in stage ==> e.id in x;
    WithoutCovered(stage, x);
    assert Without(kept + stage, x) == kept;
  }

  lemma UsgsMergeIdempotent(final: seq<Event>, stage: seq<Event>)
    requires UniqueIds(stage)
    ensures MergeResult(MergeResult(final, stage, Usgs), stage, Usgs) == MergeResult(final, stage, Usgs)
  {
    var m := MergeResult(final, stage, Usgs);
    var kept := AfterDelete(final, stage, Usgs);
    var ins := Without(stage, Ids(kept));
    assert m == kept + ins;
    forall s, d | s in stage && d in m && s.id == d.id ensures !Stale(Usgs, s, d) {
      if d in ins {
        UniqueRowOfId(stage, s, d);
      }
    }
    assert EvictedIds(m, stage, Usgs) == {};
    WithoutNone(m, {});
    assert AfterDelete(m, stage, Usgs) == m;
    IdsAppend(kept, ins);
    forall s | s in stage ensures s.id in Ids(m) {
      if s.id !in Ids(kept) {
        assert s in ins;
      }
    }
    WithoutCovered(stage, Ids(m));
    assert m + [] == m;
  }

  /** A USGS re-run evicts no id that the first run kept: a kept row was not
      stale against any staged row then, and still is not. */
  lemma UsgsRerunEvictsOnlyInserted(final: seq<Event>, stage: seq<Event>)
    ensures EvictedIds(MergeResult(final, stage, Usgs), stage, Usgs) !! Ids(AfterDelete(final, stage, Usgs))
  {
    var kept := AfterDelete(final, stage, Usgs);
    var ins := Without(stage, Ids(kept));
    var m := kept + ins;
    assert m == MergeResult(final, stage, Usgs);
    forall x | x in EvictedIds(m, stage, Usgs) ensures x !in Ids(kept) {
      var s, d :| s in stage && d in m && s.id == x && d.id == x && Stale(Usgs, s, d);
      assert d in final ==> x in EvictedIds(final, stage, Usgs);
      assert d !in kept;
      assert d in ins;
    }
  }

  /** A USGS re-run keeps the rows the first run kept, deletes the inserted
      rows whose id is evicted again, and re-inserts exactly those. */
  lemma UsgsRerunShape(final: seq<Event>, stage: seq<Event>)
    ensures var kept := AfterDelete(final, stage, Usgs);
      var ins := Without(stage, Ids(kept));
      var ev := EvictedIds(kept + ins, stage, Usgs);
      MergeResult(kept + ins, stage, Usgs) == kept + Without(ins, ev) + Without(ins, Ids(ins) - ev)
  {
    var kept := AfterDelete(final, stage, Usgs);
    var ins := Without(stage, Ids(kept));
    var m := kept + ins;
    var ev := EvictedIds(m, stage, Usgs);
    UsgsRerunEvictsOnlyInserted(final, stage);
    WithoutAppend(kept, ins, ev);
    WithoutNone(kept, ev);
    var rest := Without(ins, ev);
    assert AfterDelete(m, stage, Usgs) == kept + rest;
    IdsAppend(kept, rest);
    WithoutUnion(stage, Ids(kept), Ids(rest));
    assert Ids(rest) == Ids(ins) - ev;
  }

  /** The stored tables are bags: re-running a USGS merge with the same
      batch leaves the table's rows unchanged for every batch, including one
      with a repeated id. (As a sequence the rows may move, which is why
      `UsgsMergeIdempotent` needs unique batch ids.) */
  lemma UsgsMergeBagIdempotent(final: seq<Event>, stage: seq<Event>)
    ensures multiset(MergeResult(MergeResult(final, stage, Usgs), stage, Usgs)) ==
            multiset(MergeResult(final, stage, Usgs))
  {
    var kept := AfterDelete(final, stage, Usgs);
    var ins := Without(stage, Ids(kept));
    assert MergeResult(final, stage, Usgs) == kept + ins;
    var ev := EvictedIds(kept + ins, stage, Usgs);
    UsgsRerunShape(final, stage);
    assert forall i :: 0 <= i < |ins| ==> (ins[i].id in ev <==> ins[i].id !in Ids(ins) - ev) by {
      forall i | 0 <= i < |ins| ensures ins[i].id in Ids(ins) {
        IdOf(ins, i);
      }
    }
    WithoutPartition(ins, ev, Ids(ins) - ev);
    BagAppend3(kept, Without(ins, ev), Without(ins, Ids(ins) - ev), ins);
  }

  lemma BagAppend3(k: seq<Event>, a: seq<Event>, b: seq<Event>, t: seq<Event>)
    requires multiset(a) + multiset(b) == multiset(t)
    ensures multiset(k + a + b) == multiset(k + t)
  {
  }

  /** A re-run with the same batch leaves the final table's bag of rows
      unchanged, for either source and every batch. */
  lemma MergeBagIdempotent(final: seq<Event>, stage: seq<Event>, src: Source)
    ensures multiset(MergeResult(MergeResult(final, stage, src), stage, src)) ==
            multiset(MergeResult(final, stage, src))
  {
    if src == Prsn {
      PrsnMergeIdempotent(final, stage);
    } else {
      UsgsMergeBagIdempotent(final, stage);
    }
  }

  /** Every staged row ends up in the final table or is shadowed by a kept
      row with the same id; for PRSN every staged row is stored. */
  lemma MergeStoresBatch(final: seq<Event>, stage: seq<Event>, src: Source)
    ensures Ids(stage) <= Ids(MergeResult(final, stage, src))
    ensures src == Prsn ==> forall s :: s in stage ==> s in MergeResult(final, stage, src)
  {
    var kept := AfterDelete(final, stage, src);
    IdsAppend(kept, Without(stage, Ids(kept)));
    forall x | x in Ids(stage) ensures x in Ids(MergeResult(final, stage, src)) {
      var s :| s in stage && s.id == x;
      if x !in Ids(kept) {
        assert s in Without(stage, Ids(kept));
      }
    }
    if src == Prsn {
      PrsnMergeContents(final, stage);
    }
  }

  /** The final table after a series of runs, each merging one batch. */
  function MergeAll(final: seq<Event>, batches: seq<seq<Event>>, src: Source): seq<Event>
    decreases |batches|
  {
    if batches == [] then final else MergeAll(MergeResult(final, batches[0], src), batches[1..], src)
  }

  /** `id` stays a key across any series of merges of batches with unique ids. */
  lemma {:induction false} MergeAllUnique(final: seq<Event>, batches: seq<seq<Event>>, src: Source)
    requires UniqueIds(final)
    requires forall k :: 0 <= k < |batches| ==> UniqueIds(batches[k])
    ensures UniqueIds(MergeAll(final, batches, src))
    decreases |batches|
  {
    if batches != [] {
      MergeUnique(final, batches[0], src);
      assert forall k :: 0 <= k < |batches| - 1 ==> batches[1..][k] == batches[k + 1];
      MergeAllUnique(MergeResult(final, batches[0], src), batches[1..], src);
    }
  }

  /** A new id is inserted (delta one), and merging the same batch again
      reports "No records to update". */
  lemma NewEventInserted(final: seq<Event>, a: Event, src: Source)
    requires a.id !in Ids(final)
    ensures MergeResult(final, [a], src) == final + [a]
    ensures ReportOf(|final|, |final + [a]|) == Counts(|final|, 1, |final| + 1)
    ensures MergeResult(final + [a], [a], src) == final + [a]
  {
    assert EvictedIds(final, [a], src) !! Ids(final);
    WithoutNone(final, EvictedIds(final, [a], src));
    WithoutNone([a], Ids(final));
    MergeIdempotent(final, [a], src);
  }

  /** A USGS revision replaces the stored row; the count is unchanged, so the
      report reads "No records to update" although a row was updated. */
  lemma RevisionReplacesStoredRow(old_: Event, new_: Event)
    requires old_.id == new_.id
    requires old_.updated.Some? && new_.updated.Some? && old_.updated != new_.updated
    ensures MergeResult([old_], [new_], Usgs) == [new_]
    ensures ReportOf(1, |MergeResult([old_], [new_], Usgs)|) == NoRecordsToUpdate
  {
    assert Stale(Usgs, new_, old_);
    assert old_.id in EvictedIds([old_], [new_], Usgs);
    assert AfterDelete([old_], [new_], Usgs) == [];
    WithoutNone([new_], {});
  }

  /** The staging and final tables of one source. */
  class Store {
    var stage: seq<Event>
    var final: seq<Event>

    constructor (final: seq<Event>)
      ensures this.stage == [] && this.final == final
    {
      this.stage := [];
      this.final := final;
    }

    /** `load_to_db`: replace staging, delete stale rows, insert new rows,
        report the counts. */
    method Merge(batch: seq<Event>, src: Source) returns (report: Report)
      modifies this
      ensures stage == batch
      ensures final == MergeResult(old(final), batch, src)
      ensures report == ReportOf(|old(final)|, |final|)
      ensures UniqueIds(old(final)) && UniqueIds(batch) ==> UniqueIds(final)
      ensures multiset(MergeResult(final, batch, src)) == multiset(final)
      ensures src == Prsn || UniqueIds(batch) ==> MergeResult(final, batch, src) == final
    {
      stage := batch;
      var before := |final|;
      final := Without(final, EvictedIds(final, stage, src));
      final := final + Without(stage, Ids(final));
      var after := |final|;
      report := ReportOf(before, after);
      if UniqueIds(old(final)) && UniqueIds(batch) {
        MergeUnique(old(final), batch, src);
      }
      MergeBagIdempotent(old(final), batch, src);
      if src == Prsn || UniqueIds(batch) {
        MergeIdempotent(old(final), batch, src);
      }
    }
  }
}
