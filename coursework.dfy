/**
 * The record edits of Coursework.tsx (add, update, remove a semester) and the
 * soft-delete window that lets the latest removal be undone until its timer fires.
 */
module Coursework {
  import opened Wrappers
  import opened Records

  predicate HasId(semesters: seq<Semester>, id: string) {
    exists i :: 0 <= i < |semesters| && semesters[i].id == id
  }

  /** No two semesters of the record share an id. */
  predicate UniqueIds(semesters: seq<Semester>) {
    forall i, j :: 0 <= i < j < |semesters| ==> semesters[i].id != semesters[j].id
  }

  /** handleAddSemester: a new, empty, unindexed semester at the end; the id is supplied fresh. */
  function AppendSemester(semesters: seq<Semester>, id: string, name: string): (r: seq<Semester>)
    requires !HasId(semesters, id)
    ensures |r| == |semesters| + 1 && r[..|semesters|] == semesters
    ensures r[|semesters|].id == id && r[|semesters|].name == name
    ensures r[|semesters|].courses == [] && r[|semesters|].ips == None
    ensures UniqueIds(semesters) ==> UniqueIds(r)
  {
    semesters + [Semester(id, name, [], None)]
  }

  /** handleUpdateSemester: `map` that swaps in the updated semester wherever the id matches. */
  function ReplaceById(semesters: seq<Semester>, updated: Semester): (r: seq<Semester>)
    ensures |r| == |semesters|
    ensures forall i :: 0 <= i < |semesters| ==>
      r[i] == (if semesters[i].id == updated.id then updated else semesters[i])
    ensures forall i :: 0 <= i < |semesters| ==> r[i].id == semesters[i].id
    ensures !HasId(semesters, updated.id) ==> r == semesters
    ensures UniqueIds(semesters) ==> UniqueIds(r)
    decreases |semesters|
  {
    if semesters == [] then []
    else [if semesters[0].id == updated.id then updated else semesters[0]] + ReplaceById(semesters[1..], updated)
  }

  /** `findIndex`: the position of the first semester with the id, if any. */
  function FindIndexById(semesters: seq<Semester>, id: string): (r: Option<nat>)
    ensures r.Some? ==> r.value < |semesters| && semesters[r.value].id == id
    ensures r.Some? ==> forall j :: 0 <= j < r.value ==> semesters[j].id != id
    ensures r.None? <==> !HasId(semesters, id)
    decreases |semesters|
  {
    if semesters == [] then None
    else if semesters[0].id == id then Some(0)
    else match FindIndexById(semesters[1..], id)
      case None => None
      case Some(i) => Some(i + 1)
  }

  /** `filter`: the record without any semester of the id, the others kept in order. */
  function FilterOutId(semesters: seq<Semester>, id: string): (r: seq<Semester>)
    ensures |r| <= |semesters|
    ensures forall j :: 0 <= j < |r| ==> r[j].id != id
    decreases |semesters|
  {
    if semesters == [] then []
    else
      var rest := FilterOutId(semesters[1..], id);
      if semesters[0].id == id then rest else [semesters[0]] + rest
  }

  /** Filtering keeps exactly the semesters whose id differs. */
  lemma {:induction false} FilterOutMembers(semesters: seq<Semester>, id: string)
    ensures forall s :: s in FilterOutId(semesters, id) <==> s in semesters && s.id != id
    decreases |semesters|
  {
    if semesters != [] {
      FilterOutMembers(semesters[1..], id);
      assert semesters == [semesters[0]] + semesters[1..];
    }
  }

  /** Filtering out an id that is absent changes nothing. */
  lemma {:induction false} FilterOutAbsent(semesters: seq<Semester>, id: string)
    requires !HasId(semesters, id)
    ensures FilterOutId(semesters, id) == semesters
    decreases |semesters|
  {
    if semesters != [] {
      var tail := semesters[1..];
      assert !HasId(tail, id) by {
        forall j | 0 <= j < |tail| ensures tail[j].id != id {
          assert tail[j] == semesters[j + 1];
        }
      }
      FilterOutAbsent(tail, id);
      assert semesters[0].id != id;
      assert semesters == [semesters[0]] + tail;
    }
  }

  /** Filtering keeps the ids unique. */
  lemma {:induction false} FilterOutKeepsUnique(semesters: seq<Semester>, id: string)
    requires UniqueIds(semesters)
    ensures UniqueIds(FilterOutId(semesters, id))
    decreases |semesters|
  {
    if semesters != [] {
      var tail := semesters[1..];
      assert UniqueIds(tail) by {
        forall a, b | 0 <= a < b < |tail| ensures tail[a].id != tail[b].id {
          assert tail[a] == semesters[a + 1] && tail[b] == semesters[b + 1];
        }
      }
      FilterOutKeepsUnique(tail, id);
      var rest := FilterOutId(tail, id);
      if semesters[0].id != id {
        FilterOutMembers(tail, id);
        var r := [semesters[0]] + rest;
        forall a, b | 0 <= a < b < |r| ensures r[a].id != r[b].id {
          if a == 0 {
            assert r[b] == rest[b - 1] && r[b] in tail;
            var j :| 0 <= j < |tail| && tail[j] == r[b];
            assert tail[j] == semesters[j + 1];
          } else {
            assert r[a] == rest[a - 1] && r[b] == rest[b - 1];
          }
        }
      }
    }
  }

  /**
   * `splice(index, 0, semester)` on a copy: the semester goes in at the index,
   * or at the end when the record has become shorter than the index.
   */
  function SpliceIn(semesters: seq<Semester>, index: nat, semester: Semester): (r: seq<Semester>)
    ensures |r| == |semesters| + 1
    ensures var k := if index < |semesters| then index else |semesters|;
      r[k] == semester &&
      (forall j :: 0 <= j < k ==> r[j] == semesters[j]) &&
      (forall j :: k < j <= |semesters| ==> r[j] == semesters[j - 1])
  {
    var k := if index < |semesters| then index else |semesters|;
    semesters[..k] + [semester] + semesters[k..]
  }

  /** In a record with unique ids, filtering out one semester's id cuts out exactly that semester. */
  lemma {:induction false} FilterOutUnique(semesters: seq<Semester>, i: nat)
    requires UniqueIds(semesters) && i < |semesters|
    ensures FilterOutId(semesters, semesters[i].id) == semesters[..i] + semesters[i + 1..]
    decreases |semesters|
  {
    var id := semesters[i].id;
    var tail := semesters[1..];
    if i == 0 {
      assert !HasId(tail, id) by {
        forall j | 0 <= j < |tail| ensures tail[j].id != id {
          assert tail[j] == semesters[j + 1];
        }
      }
      FilterOutAbsent(tail, id);
      assert semesters[i + 1..] == tail;
    } else {
      assert UniqueIds(tail) by {
        forall a, b | 0 <= a < b < |tail| ensures tail[a].id != tail[b].id {
          assert tail[a] == semesters[a + 1] && tail[b] == semesters[b + 1];
        }
      }
      assert tail[i - 1] == semesters[i];
      FilterOutUnique(tail, i - 1);
      assert semesters[0].id != id;
      assert semesters[..i] == [semesters[0]] + tail[..i - 1];
      assert semesters[i + 1..] == tail[i..];
    }
  }

  /** Removing a semester and splicing it back at its index gives the record back. */
  lemma RemoveThenRestore(semesters: seq<Semester>, id: string)
    requires UniqueIds(semesters) && HasId(semesters, id)
    ensures var i := FindIndexById(semesters, id).value;
      SpliceIn(FilterOutId(semesters, id), i, semesters[i]) == semesters
  {
    var i := FindIndexById(semesters, id).value;
    FilterOutUnique(semesters, i);
    var r := SpliceIn(FilterOutId(semesters, id), i, semesters[i]);
    assert r == semesters[..i] + [semesters[i]] + semesters[i + 1..];
  }

  /** Filtering distributes over concatenation. */
  lemma {:induction false} FilterOutConcat(a: seq<Semester>, b: seq<Semester>, id: string)
    ensures FilterOutId(a + b, id) == FilterOutId(a, id) + FilterOutId(b, id)
    decreases |a|
  {
    if a == [] {
      assert a + b == b;
    } else {
      assert (a + b)[0] == a[0];
      assert (a + b)[1..] == a[1..] + b;
      FilterOutConcat(a[1..], b, id);
    }
  }

  /** A slice of a record inherits the absence of an id. */
  lemma AbsentFromSlice(semesters: seq<Semester>, lo: nat, hi: nat, id: string)
    requires lo <= hi <= |semesters| && !HasId(semesters, id)
    ensures !HasId(semesters[lo..hi], id)
  {
    var part := semesters[lo..hi];
    forall j | 0 <= j < |part| ensures part[j].id != id {
      assert part[j] == semesters[lo + j];
    }
  }

  /** Filtering out the id of a semester surrounded by parts without that id leaves the parts. */
  lemma FilterOutBetween(before: seq<Semester>, semester: Semester, after: seq<Semester>)
    requires !HasId(before, semester.id) && !HasId(after, semester.id)
    ensures FilterOutId(before + [semester] + after, semester.id) == before + after
  {
    var id := semester.id;
    assert FilterOutId([semester], id) == [] by {
      assert [semester][1..] == [];
    }
    FilterOutAbsent(before, id);
    FilterOutAbsent(after, id);
    FilterOutConcat(before, [semester] + after, id);
    FilterOutConcat([semester], after, id);
    assert before + [semester] + after == before + ([semester] + after);
  }

  /** Splicing in a semester whose id is absent and then filtering its id out gives the record back. */
  lemma RestoreThenRemove(semesters: seq<Semester>, index: nat, semester: Semester)
    requires !HasId(semesters, semester.id)
    ensures FilterOutId(SpliceIn(semesters, index, semester), semester.id) == semesters
  {
    var k := if index < |semesters| then index else |semesters|;
    AbsentFromSlice(semesters, 0, k, semester.id);
    AbsentFromSlice(semesters, k, |semesters|, semester.id);
    assert SpliceIn(semesters, index, semester) == semesters[..k] + [semester] + semesters[k..];
    FilterOutBetween(semesters[..k], semester, semesters[k..]);
    assert semesters[..k] + semesters[k..] == semesters;
  }

  /** The (semester, index) snapshot of the latest removal. */
  datatype Deletion = Deletion(semester: Semester, index: nat)

  /**
   * The editing state of the coursework page: the record as last handed to
   * `onUpdateSemesters`, the single pending snapshot `recentlyDeleted`, the
   * stored `undoTimeoutId`, and whether that timer is still scheduled (it has
   * neither fired nor been cleared).
   */
  class CourseworkEditor {
    var semesters: seq<Semester>
    var recentlyDeleted: Option<Deletion>
    var undoTimeoutId: Option<nat>
    var timerPending: bool

    /**
     * Ids are unique; a snapshot is pending exactly while its timer is
     * scheduled; and the pending semester is absent from the record.
     */
    ghost predicate Valid()
      reads this
    {
      UniqueIds(semesters) &&
      (recentlyDeleted.Some? <==> timerPending) &&
      (timerPending ==> undoTimeoutId.Some?) &&
      (recentlyDeleted.Some? ==> !HasId(semesters, recentlyDeleted.value.semester.id))
    }

    /** The Idle state: no deletion can be undone. */
    predicate IsIdle()
      reads this
    {
      recentlyDeleted.None?
    }

    constructor (semesters: seq<Semester>)
      requires UniqueIds(semesters)
      ensures Valid() && IsIdle()
      ensures this.semesters == semesters && undoTimeoutId == None && !timerPending
    {
      this.semesters := semesters;
      recentlyDeleted := None;
      undoTimeoutId := None;
      timerPending := false;
    }

    /**
     * handleAddSemester, with the fresh id as a parameter: it is neither in the
     * record nor the id of the pending deletion's semester, so a later undo
     * cannot bring back a duplicate.
     */
    method AddSemester(id: string, name: string)
      requires Valid()
      requires !HasId(semesters, id)
      requires recentlyDeleted.Some? ==> recentlyDeleted.value.semester.id != id
      modifies this`semesters
      ensures Valid()
      ensures semesters == AppendSemester(old(semesters), id, name)
    {
      semesters := AppendSemester(semesters, id, name);
    }

    /** handleUpdateSemester. */
    method UpdateSemester(updated: Semester)
      requires Valid()
      modifies this`semesters
      ensures Valid()
      ensures semesters == ReplaceById(old(semesters), updated)
    {
      semesters := ReplaceById(semesters, updated);
    }

    /**
     * handleRemoveSemester, with the handle `window.setTimeout` returns as a
     * parameter. An absent id changes nothing; otherwise any pending timer is
     * cleared, the snapshot is overwritten, the semester is filtered out and a
     * new timer is scheduled.
     */
    method RemoveSemester(id: string, timeoutId: nat)
      requires Valid()
      modifies this
      ensures Valid()
      ensures !HasId(old(semesters), id) ==>
        semesters == old(semesters) && recentlyDeleted == old(recentlyDeleted) &&
        undoTimeoutId == old(undoTimeoutId) && timerPending == old(timerPending)
      ensures HasId(old(semesters), id) ==>
        var i := FindIndexById(old(semesters), id).value;
        recentlyDeleted == Some(Deletion(old(semesters)[i], i)) &&
        semesters == FilterOutId(old(semesters), id) &&
        undoTimeoutId == Some(timeoutId) && timerPending
    {
      var semesterIndex := FindIndexById(semesters, id);
      if semesterIndex.None? {
        return;
      }
      var semesterToDelete := semesters[semesterIndex.value];
      if undoTimeoutId.Some? {
        timerPending := false;
      }
      FilterOutKeepsUnique(semesters, id);
      recentlyDeleted := Some(Deletion(semesterToDelete, semesterIndex.value));
      semesters := FilterOutId(semesters, id);
      undoTimeoutId := Some(timeoutId);
      timerPending := true;
    }

    /**
     * handleUndoDelete: with nothing pending it does nothing; otherwise the
     * snapshot is spliced back in and the pending state and timer are cleared.
     */
    method UndoDelete()
      requires Valid()
      modifies this
      ensures Valid() && IsIdle()
      ensures old(recentlyDeleted).None? ==>
        semesters == old(semesters) && undoTimeoutId == old(undoTimeoutId) && timerPending == old(timerPending)
      ensures old(recentlyDeleted).Some? ==>
        var d := old(recentlyDeleted).value;
        semesters == SpliceIn(old(semesters), d.index, d.semester) &&
        undoTimeoutId == None && !timerPending
    {
      if recentlyDeleted.None? {
        return;
      }
      var d := recentlyDeleted.value;
      semesters := SpliceIn(semesters, d.index, d.semester);
      recentlyDeleted := None;
      if undoTimeoutId.Some? {
        timerPending := false;
        undoTimeoutId := None;
      }
      UniqueAfterSplice(old(semesters), d.index, d.semester);
    }

    /**
     * The scheduled timer fires: the snapshot is dropped and the record is left
     * as it is. A cleared or already fired timer never fires.
     */
    method Expire()
      requires Valid()
      modifies this`recentlyDeleted, this`timerPending
      ensures Valid() && IsIdle() && !timerPending
      ensures semesters == old(semesters) && undoTimeoutId == old(undoTimeoutId)
      ensures old(timerPending) ==> recentlyDeleted == None
      ensures !old(timerPending) ==> recentlyDeleted == old(recentlyDeleted)
    {
      if timerPending {
        recentlyDeleted := None;
        timerPending := false;
      }
    }
  }

  /** Splicing in a semester whose id is absent keeps the ids unique. */
  lemma UniqueAfterSplice(semesters: seq<Semester>, index: nat, semester: Semester)
    requires UniqueIds(semesters) && !HasId(semesters, semester.id)
    ensures UniqueIds(SpliceIn(semesters, index, semester))
  {
    var k := if index < |semesters| then index else |semesters|;
    var r := SpliceIn(semesters, index, semester);
    forall a, b | 0 <= a < b < |r| ensures r[a].id != r[b].id {
      if a != k && b != k {
        var a' := if a < k then a else a - 1;
        var b' := if b < k then b else b - 1;
        assert r[a] == semesters[a'] && r[b] == semesters[b'];
      } else if a == k {
        assert r[b] == semesters[b - 1];
      } else {
        assert r[a] == semesters[a];
      }
    }
  }

  /** Remove followed at once by undo gives back the record it started from. */
  method RemoveThenUndo(record: seq<Semester>, id: string, timeoutId: nat) returns (after: seq<Semester>)
    requires UniqueIds(record) && HasId(record, id)
    ensures after == record
  {
    var editor := new CourseworkEditor(record);
    editor.RemoveSemester(id, timeoutId);
    editor.UndoDelete();
    RemoveThenRestore(record, id);
    after := editor.semesters;
  }

  /** Once the window has expired, undo does nothing and the removal stands. */
  method RemoveExpireUndo(record: seq<Semester>, id: string, timeoutId: nat) returns (after: seq<Semester>)
    requires UniqueIds(record)
    ensures after == FilterOutId(record, id)
  {
    var editor := new CourseworkEditor(record);
    editor.RemoveSemester(id, timeoutId);
    editor.Expire();
    editor.UndoDelete();
    if !HasId(record, id) {
      FilterOutAbsent(record, id);
    }
    after := editor.semesters;
  }

  /**
   * A second removal while the first is pending supersedes it: undo restores
   * the second semester only, and the first stays removed.
   */
  method RemoveTwiceThenUndo(record: seq<Semester>, first: string, second: string, t1: nat, t2: nat)
    returns (after: seq<Semester>)
    requires UniqueIds(record) && HasId(record, first) && HasId(record, second) && first != second
    ensures after == FilterOutId(record, first)
  {
    var editor := new CourseworkEditor(record);
    editor.RemoveSemester(first, t1);
    ghost var between := editor.semesters;
    assert HasId(between, second) by {
      var j := FindIndexById(record, second).value;
      FilterOutMembers(record, first);
      assert record[j] in between;
      var k :| 0 <= k < |between| && between[k] == record[j];
    }
    editor.RemoveSemester(second, t2);
    editor.UndoDelete();
    RemoveThenRestore(between, second);
    after := editor.semesters;
  }
}
