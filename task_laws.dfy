/**
 * Properties of the task service's operations, stated over the collection
 * functions of module Tasks: id assignment, the collection invariant, what
 * each operation leaves untouched, and order preservation.
 */
module TaskLaws {
  import opened Tasks

  // ---------------------------------------------------------------------------
  // Id assignment

  /** Successive adds, each with its own task and clock reading, applied in order. */
  function AddEach(ts: seq<Task>, adds: seq<(Task, Time)>): seq<Task>
    decreases |adds|
  {
    if adds == [] then ts else AddEach(Added(ts, adds[0].0, adds[0].1), adds[1..])
  }

  /** When ids are 1, 2, ..., n in order, the largest is n. */
  lemma MaxIdOfNumbered(ts: seq<Task>)
    requires forall k :: 0 <= k < |ts| ==> ts[k].id == k + 1
    ensures MaxId(ts) == |ts|
  {
  }

  /** Adding to a collection numbered 1..n keeps the numbering consecutive: the adds get n+1, n+2, ... */
  lemma {:induction false} AddsNumberConsecutively(ts: seq<Task>, adds: seq<(Task, Time)>)
    requires forall k :: 0 <= k < |ts| ==> ts[k].id == k + 1
    ensures |AddEach(ts, adds)| == |ts| + |adds|
    ensures forall k :: 0 <= k < |ts| + |adds| ==> AddEach(ts, adds)[k].id == k + 1
    decreases |adds|
  {
    if adds != [] {
      MaxIdOfNumbered(ts);
      var next := Added(ts, adds[0].0, adds[0].1);
      assert forall k :: 0 <= k < |next| ==> next[k].id == k + 1 by {
        forall k | 0 <= k < |next| ensures next[k].id == k + 1 {
          if k < |ts| {
            assert next[k] == next[..|ts|][k];
          }
        }
      }
      AddsNumberConsecutively(next, adds[1..]);
    }
  }

  /** Starting from an empty (or missing) save file, the n-th add receives id n. */
  lemma AddsFromEmpty(adds: seq<(Task, Time)>)
    ensures |AddEach([], adds)| == |adds|
    ensures forall k :: 0 <= k < |adds| ==> AddEach([], adds)[k].id == k + 1
  {
    AddsNumberConsecutively([], adds);
  }

  /** Add keeps the collection invariant: the new id is positive and larger than every existing id. */
  lemma AddKeepsValidIds(ts: seq<Task>, t: Task, now: Time)
    requires ValidIds(ts)
    ensures ValidIds(Added(ts, t, now))
  {
  }

  // ---------------------------------------------------------------------------
  // Update

  /**
   * With distinct ids, Update's visit-every-task loop does what a first-match
   * edit (the loop shape of Delete and Mark) would do.
   */
  lemma UpdateIsFirstMatchEdit(ts: seq<Task>, id: int, description: string, now: Time)
    requires DistinctIds(ts)
    ensures FirstIndex(ts, id).None? ==> Updated(ts, id, description, now) == ts
    ensures FirstIndex(ts, id).Some? ==>
      var k := FirstIndex(ts, id).value;
      Updated(ts, id, description, now) == ts[k := ts[k].(description := description, updatedAt := now)]
  {
  }

  /** Without distinct ids the two loop shapes differ: Update edits every duplicate, Mark only the first. */
  lemma DuplicateIdsUpdateAllButMarkFirst(now: Time)
    ensures var ts := [Task(1, "a", Todo, 1, 0), Task(1, "b", Todo, 1, 0)];
      Updated(ts, 1, "c", now)[1].description == "c" &&
      Marked(ts, 1, Done)[1].status == Todo
  {
  }

  /** Update changes no id, so it keeps the collection invariant. */
  lemma UpdateKeepsValidIds(ts: seq<Task>, id: int, description: string, now: Time)
    requires ValidIds(ts)
    ensures ValidIds(Updated(ts, id, description, now))
  {
  }

  // ---------------------------------------------------------------------------
  // Delete

  /** Every task left after Delete was in the collection before it. */
  lemma RemovedFromOriginal(ts: seq<Task>, id: int)
    ensures forall i :: 0 <= i < |Removed(ts, id)| ==>
      Removed(ts, id)[i] == ts[if FirstIndex(ts, id).Some? && i >= FirstIndex(ts, id).value then i + 1 else i]
  {
  }

  /** Delete keeps the collection invariant: what remains keeps its ids and relative order. */
  lemma DeleteKeepsValidIds(ts: seq<Task>, id: int)
    requires ValidIds(ts)
    ensures ValidIds(Removed(ts, id))
  {
  }

  /**
   * Delete takes out exactly one task, the first with the id; with distinct ids no task
   * with that id remains and every other task is kept.
   */
  lemma DeleteRemovesExactlyOne(ts: seq<Task>, id: int)
    requires HasId(ts, id)
    ensures FirstIndex(ts, id).Some?
    ensures multiset(Removed(ts, id)) + multiset{ts[FirstIndex(ts, id).value]} == multiset(ts)
    ensures DistinctIds(ts) ==> !HasId(Removed(ts, id), id)
    ensures forall t :: t in ts && t.id != id ==> t in Removed(ts, id)
  {
    var k := FirstIndex(ts, id).value;
    var r := Removed(ts, id);
    assert ts == ts[..k] + [ts[k]] + ts[k + 1..];
    assert r == ts[..k] + ts[k + 1..];
    RemovedFromOriginal(ts, id);
    if DistinctIds(ts) {
      forall i | 0 <= i < |r| ensures r[i].id != id {
        if i >= k {
          assert r[i] == ts[i + 1];
          assert ts[k].id != ts[i + 1].id;
        }
      }
    }
  }

  /** Every task in a collection has an id no larger than the collection's MaxId. */
  lemma MaxIdBoundsMembers(ts: seq<Task>, t: Task)
    requires t in ts
    ensures t.id <= MaxId(ts)
  {
  }

  /**
   * Deleting a task other than the one with the largest id does not lower the next
   * id, so the next add does not hand out the deleted id. (Deleting the task with
   * the largest id does lower it:
   * see DeletingNewestReusesItsId and DeletedIdReturnsOnceLargerOnesAreGone.)
   */
  lemma DeleteKeepsNextId(ts: seq<Task>, id: int)
    requires ValidIds(ts) && HasId(ts, id) && id < MaxId(ts)
    ensures MaxId(Removed(ts, id)) == MaxId(ts)
  {
    var r := Removed(ts, id);
    var j :| 0 <= j < |ts| && ts[j].id == MaxId(ts);
    assert ts[j] in r by {
      DeleteRemovesExactlyOne(ts, id);
    }
    MaxIdBoundsMembers(r, ts[j]);
    if MaxId(r) != 0 {
      var i :| 0 <= i < |r| && r[i].id == MaxId(r);
      RemovedFromOriginal(ts, id);
      var k := FirstIndex(ts, id).value;
      assert r[i] == ts[if i >= k then i + 1 else i];
    }
  }

  /** The next id is the largest remaining id plus one, so deleting the task with the largest id frees its id. */
  lemma DeletingNewestReusesItsId(t1: Task, t2: Task, t: Task, now: Time)
    requires t1.id == 1 && t2.id == 2
    ensures Added(Removed([t1, t2], 2), t, now)[1].id == 2
  {
  }

  /**
   * A deleted id comes back once every larger id has been deleted too: from ids
   * 1, 2, 3, deleting 2 and then 3 makes the next add get id 2 again.
   */
  lemma DeletedIdReturnsOnceLargerOnesAreGone(t1: Task, t2: Task, t3: Task, t: Task, now: Time)
    requires t1.id == 1 && t2.id == 2 && t3.id == 3
    ensures Added(Removed(Removed([t1, t2, t3], 2), 3), t, now)[1].id == 2
  {
  }

  // ---------------------------------------------------------------------------
  // Mark

  /** Mark changes no id, so it keeps the collection invariant. */
  lemma MarkKeepsValidIds(ts: seq<Task>, id: int, status: Status)
    requires ValidIds(ts)
    ensures ValidIds(Marked(ts, id, status))
  {
  }

  /** Mark touches only the status: description, creation time and update time all stay. */
  lemma MarkKeepsTimes(ts: seq<Task>, id: int, status: Status)
    ensures forall i :: 0 <= i < |ts| ==>
      var r := Marked(ts, id, status);
      r[i].id == ts[i].id && r[i].description == ts[i].description &&
      r[i].createdAt == ts[i].createdAt && r[i].updatedAt == ts[i].updatedAt
    ensures HasId(ts, id) ==> exists i :: 0 <= i < |ts| && Marked(ts, id, status)[i].status == status
  {
  }

  // ---------------------------------------------------------------------------
  // List

  /** Filtering distributes over concatenation, so it keeps the tasks' relative order. */
  lemma {:induction false} FilteredAppend(a: seq<Task>, b: seq<Task>, status: Status)
    ensures Filtered(a + b, status) == Filtered(a, status) + Filtered(b, status)
    decreases |b|
  {
    if b == [] {
      assert a + b == a;
    } else {
      var b' := b[..|b| - 1];
      assert (a + b)[..|a + b| - 1] == a + b';
      FilteredAppend(a, b', status);
    }
  }

  /** Each task occurs in the filtered list as often as in the collection when its status matches, else never. */
  lemma {:induction false} FilteredCount(ts: seq<Task>, status: Status, t: Task)
    ensures multiset(Filtered(ts, status))[t] == if t.status == status then multiset(ts)[t] else 0
  {
    if ts != [] {
      var front := ts[..|ts| - 1];
      assert ts == front + [ts[|ts| - 1]];
      FilteredCount(front, status, t);
    }
  }

  /** A task is listed under a status exactly when it is in the collection with that status. */
  lemma FilteredMembers(ts: seq<Task>, status: Status, t: Task)
    ensures t in Filtered(ts, status) <==> t in ts && t.status == status
  {
  }

  /** The three status filters split the collection: their sizes add up to its size. */
  lemma {:induction false} StatusesPartition(ts: seq<Task>)
    ensures |Filtered(ts, Todo)| + |Filtered(ts, InProgress)| + |Filtered(ts, Done)| == |ts|
  {
    if ts != [] {
      StatusesPartition(ts[..|ts| - 1]);
    }
  }

  // ---------------------------------------------------------------------------
  // The service as its callers see it

  /**
   * The service's test cases stated as assertions, which the verifier checks
   * against the method contracts.
   */
  method Scenarios(desc: string, now: Time)
  {
    // A missing save file counts as empty: the first add gets id 1, the second id 2.
    var svc := new TaskService(Missing);
    var id := svc.Add(Task(0, desc, InProgress, 0, 0), now);
    assert id == Ok(1);
    assert svc.file == Present([Task(1, desc, InProgress, now, 0)]);
    id := svc.Add(Task(7, desc, Todo, 0, 0), now);
    assert id == Ok(2);

    // Unknown ids are reported as NotFound and nothing is saved.
    var before := svc.file;
    var res := svc.Update(16, Task(16, desc, Done, 0, 0), now);
    assert res == Err(NotFound) && svc.file == before by {
      assert !HasId(before.tasks, 16);
    }
    res := svc.Mark(16, Done);
    assert res == Err(NotFound) && svc.file == before;
    res := svc.Delete(16);
    assert res == Err(NotFound) && svc.file == before;

    // Update sets the description and the update time but ignores the patch's status.
    res := svc.Update(1, Task(1, "new", Done, 0, 0), now);
    assert HasId(before.tasks, 1) by { assert before.tasks[0].id == 1; }
    assert res == Ok(());
    assert svc.file.tasks[0] == Task(1, "new", InProgress, now, now);

    // Mark sets the status and leaves the update time alone.
    before := svc.file;
    res := svc.Mark(2, Done);
    assert HasId(before.tasks, 2) by { assert before.tasks[1].id == 2; }
    assert FirstIndex(before.tasks, 2) == Some(1);
    assert svc.file.tasks[1] == Task(2, desc, Done, now, 0);

    // Delete removes the task and keeps the rest.
    before := svc.file;
    res := svc.Delete(1);
    assert HasId(before.tasks, 1) by { assert before.tasks[0].id == 1; }
    assert FirstIndex(before.tasks, 1) == Some(0);
    assert svc.file == Present([Task(2, desc, Done, now, 0)]);
  }
}
