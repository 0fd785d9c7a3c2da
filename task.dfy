/**
 * The task service of the task tracker: an ordered collection of tasks kept in
 * one save file. Every operation loads the whole collection (a missing file
 * counts as empty). Add, and Update, Delete and Mark when the id is found, then
 * change it in memory and save it whole; List saves nothing, and neither does an
 * operation that fails with NotFound or a load error.
 */
module Tasks {

  datatype Option<T> = None | Some(value: T)

  /** The three task states; the save file stores them as 0, 1 and 2. */
  datatype Status = Todo | InProgress | Done

  /** A clock reading. The zero value 0 is the unset time; a zero update time is omitted from the file. */
  type Time = nat

  datatype Task = Task(id: int, description: string, status: Status, createdAt: Time, updatedAt: Time)

  /** NotFound: no task has the requested id. LoadFailed: the save file exists but cannot be read or parsed. */
  datatype Failure = NotFound | LoadFailed

  datatype Result<T> = Ok(value: T) | Err(error: Failure)

  /** What is stored at the save path. */
  datatype SaveFile = Missing | Unreadable | Present(tasks: seq<Task>)

  /** Loading treats a missing file as an empty collection and any other failure as an error. */
  function LoadOrCreate(file: SaveFile): (r: Result<seq<Task>>)
    ensures file.Missing? ==> r == Ok([])
    ensures file.Unreadable? ==> r == Err(LoadFailed)
    ensures file.Present? ==> r == Ok(file.tasks)
  {
    match file
    case Missing => Ok([])
    case Unreadable => Err(LoadFailed)
    case Present(tasks) => Ok(tasks)
  }

  predicate HasId(ts: seq<Task>, id: int)
  {
    exists i :: 0 <= i < |ts| && ts[i].id == id
  }

  /** No two tasks share an id. */
  predicate DistinctIds(ts: seq<Task>)
  {
    forall i, j :: 0 <= i < j < |ts| ==> ts[i].id != ts[j].id
  }

  /** The collection invariant: ids are positive and distinct. */
  predicate ValidIds(ts: seq<Task>)
  {
    (forall i :: 0 <= i < |ts| ==> ts[i].id > 0) && DistinctIds(ts)
  }

  // ---------------------------------------------------------------------------
  // Add

  /** The largest id in ts, where the running maximum starts from 0. */
  function MaxId(ts: seq<Task>): (m: int)
    ensures m >= 0
    ensures forall i :: 0 <= i < |ts| ==> ts[i].id <= m
    ensures m == 0 || exists i :: 0 <= i < |ts| && ts[i].id == m
  {
    if ts == [] then 0
    else
      var m0 := MaxId(ts[..|ts| - 1]);
      assert forall i :: 0 <= i < |ts| - 1 ==> ts[..|ts| - 1][i] == ts[i];
      if ts[|ts| - 1].id > m0 then ts[|ts| - 1].id else m0
  }

  /** The collection after adding t at time now: t gets the next id and a creation time. */
  function Added(ts: seq<Task>, t: Task, now: Time): (r: seq<Task>)
    ensures |r| == |ts| + 1 && r[..|ts|] == ts
    ensures r[|ts|].id == MaxId(ts) + 1
    ensures r[|ts|].id >= 1 && forall i :: 0 <= i < |ts| ==> ts[i].id < r[|ts|].id
    ensures r[|ts|].createdAt == now
    ensures r[|ts|].description == t.description && r[|ts|].status == t.status
    ensures r[|ts|].updatedAt == t.updatedAt
  {
    ts + [t.(id := MaxId(ts) + 1, createdAt := now)]
  }

  /** The running-maximum scan of Add: the id the next added task receives. */
  method NextId(ts: seq<Task>) returns (id: int)
    ensures id == MaxId(ts) + 1
    ensures id >= 1 && forall i :: 0 <= i < |ts| ==> ts[i].id < id
  {
    var maxId := 0;
    var i := 0;
    while i < |ts|
      invariant 0 <= i <= |ts|
      invariant maxId == MaxId(ts[..i])
    {
      assert ts[..i + 1][..i] == ts[..i];
      if ts[i].id > maxId {
        maxId := ts[i].id;
      }
      i := i + 1;
    }
    assert ts[..|ts|] == ts;
    id := maxId + 1;
  }

  // ---------------------------------------------------------------------------
  // Update

  /** Every task with the id gets the new description and updatedAt = now; the rest are unchanged. */
  function Updated(ts: seq<Task>, id: int, description: string, now: Time): (r: seq<Task>)
    ensures |r| == |ts|
    ensures forall i :: 0 <= i < |ts| ==>
      r[i].id == ts[i].id && r[i].status == ts[i].status && r[i].createdAt == ts[i].createdAt
    ensures forall i :: 0 <= i < |ts| && ts[i].id != id ==> r[i] == ts[i]
    ensures forall i :: 0 <= i < |ts| && ts[i].id == id ==>
      r[i].description == description && r[i].updatedAt == now
  {
    seq(|ts|, i requires 0 <= i < |ts| =>
      if ts[i].id == id then ts[i].(description := description, updatedAt := now) else ts[i])
  }

  /** The loop of Update: it visits every task and does not stop at the first match. */
  method UpdateMatching(ts: seq<Task>, id: int, description: string, now: Time) returns (r: seq<Task>, found: bool)
    ensures r == Updated(ts, id, description, now)
    ensures found <==> HasId(ts, id)
  {
    r := ts;
    found := false;
    var i := 0;
    while i < |ts|
      invariant 0 <= i <= |ts| && |r| == |ts|
      invariant forall k :: 0 <= k < i ==> r[k] == Updated(ts, id, description, now)[k]
      invariant forall k :: i <= k < |ts| ==> r[k] == ts[k]
      invariant found <==> exists k :: 0 <= k < i && ts[k].id == id
    {
      if ts[i].id == id {
        found := true;
        r := r[i := ts[i].(description := description, updatedAt := now)];
      }
      i := i + 1;
    }
  }

  // ---------------------------------------------------------------------------
  // Delete and Mark: both act on the first task with the id

  /** The position of the first task with the id, if there is one. */
  function FirstIndex(ts: seq<Task>, id: int): (r: Option<nat>)
    ensures r.Some? ==> r.value < |ts| && ts[r.value].id == id
    ensures forall j :: 0 <= j < |ts| && (r.None? || j < r.value) ==> ts[j].id != id
  {
    if ts == [] then None
    else if ts[0].id == id then Some(0)
    else
      match FirstIndex(ts[1..], id)
      case None => None
      case Some(k) => Some(k + 1)
  }

  /** The search loop shared by Delete and Mark, which stop at the first match. */
  method FindFirst(ts: seq<Task>, id: int) returns (r: Option<nat>)
    ensures r == FirstIndex(ts, id)
  {
    var i := 0;
    while i < |ts|
      invariant 0 <= i <= |ts|
      invariant forall j :: 0 <= j < i ==> ts[j].id != id
    {
      if ts[i].id == id {
        FirstIndexIs(ts, id, i);
        return Some(i);
      }
      i := i + 1;
    }
    FirstIndexIs(ts, id, |ts|);
    r := None;
  }

  /** Helper: when no task before k has the id, the first match is at k (or nowhere, for k == |ts|). */
  lemma FirstIndexIs(ts: seq<Task>, id: int, k: nat)
    requires k <= |ts|
    requires forall j :: 0 <= j < k ==> ts[j].id != id
    requires k < |ts| ==> ts[k].id == id
    ensures FirstIndex(ts, id) == if k < |ts| then Some(k) else None
  {
  }

  /** The collection after deleting the first task with the id; unchanged when there is none. */
  function Removed(ts: seq<Task>, id: int): (r: seq<Task>)
    ensures FirstIndex(ts, id).None? ==> r == ts
    ensures FirstIndex(ts, id).Some? ==>
      var k := FirstIndex(ts, id).value;
      |r| == |ts| - 1 && r[..k] == ts[..k] && r[k..] == ts[k + 1..]
  {
    match FirstIndex(ts, id)
    case None => ts
    case Some(k) => ts[..k] + ts[k + 1..]
  }

  /** The collection after setting the status of the first task with the id. */
  function Marked(ts: seq<Task>, id: int, status: Status): (r: seq<Task>)
    ensures |r| == |ts|
    ensures forall i :: 0 <= i < |ts| && FirstIndex(ts, id) != Some(i) ==> r[i] == ts[i]
    ensures FirstIndex(ts, id).Some? ==>
      var k := FirstIndex(ts, id).value;
      r[k] == ts[k].(status := status)
  {
    match FirstIndex(ts, id)
    case None => ts
    case Some(k) => ts[k := ts[k].(status := status)]
  }

  // ---------------------------------------------------------------------------
  // List

  /** The tasks with the given status, in their original order. */
  function Filtered(ts: seq<Task>, status: Status): (r: seq<Task>)
    ensures |r| <= |ts|
    ensures forall i :: 0 <= i < |r| ==> r[i].status == status && r[i] in ts
  {
    if ts == [] then []
    else
      var front := Filtered(ts[..|ts| - 1], status);
      var last := ts[|ts| - 1];
      assert forall t :: t in ts[..|ts| - 1] ==> t in ts;
      if last.status == status then front + [last] else front
  }

  /** The filtering loop of List, which appends each matching task. */
  method FilterByStatus(ts: seq<Task>, status: Status) returns (r: seq<Task>)
    ensures r == Filtered(ts, status)
  {
    r := [];
    var i := 0;
    while i < |ts|
      invariant 0 <= i <= |ts|
      invariant r == Filtered(ts[..i], status)
    {
      assert ts[..i + 1][..i] == ts[..i];
      if ts[i].status == status {
        r := r + [ts[i]];
      }
      i := i + 1;
    }
    assert ts[..|ts|] == ts;
  }

  /** What List returns for a loaded collection: all of it without a filter, else the matching tasks. */
  function Listed(ts: seq<Task>, filter: Option<Status>): (r: seq<Task>)
    ensures filter.None? ==> r == ts
    ensures filter.Some? ==> r == Filtered(ts, filter.value)
  {
    if |ts| == 0 || filter.None? then ts else Filtered(ts, filter.value)
  }

  // ---------------------------------------------------------------------------
  // The service

  /**
   * The service bound to one save path. The field `file` stands for what that
   * path holds between operations; the clock is the `now` argument.
   */
  class TaskService {
    var file: SaveFile

    constructor (file: SaveFile)
      ensures this.file == file
    {
      this.file := file;
    }

    /** Adds t with the next id and creation time now, and returns that id. */
    method Add(t: Task, now: Time) returns (r: Result<int>)
      modifies this
      ensures old(file).Unreadable? ==> r == Err(LoadFailed) && file == old(file)
      ensures !old(file).Unreadable? ==>
        var ts := LoadOrCreate(old(file)).value;
        r == Ok(MaxId(ts) + 1) && file == Present(Added(ts, t, now))
    {
      var loaded := LoadOrCreate(file);
      if loaded.Err? {
        return Err(loaded.error);
      }
      var tasks := loaded.value;
      var id := NextId(tasks);
      var t' := t.(id := id, createdAt := now);
      tasks := tasks + [t'];
      file := Present(tasks);
      r := Ok(id);
    }

    /** Replaces the description of every task with the id; only the patch's description is used. */
    method Update(id: int, patch: Task, now: Time) returns (r: Result<()>)
      modifies this
      ensures old(file).Unreadable? ==> r == Err(LoadFailed) && file == old(file)
      ensures !old(file).Unreadable? ==>
        var ts := LoadOrCreate(old(file)).value;
        if HasId(ts, id) then r == Ok(()) && file == Present(Updated(ts, id, patch.description, now))
        else r == Err(NotFound) && file == old(file)
    {
      var loaded := LoadOrCreate(file);
      if loaded.Err? {
        return Err(loaded.error);
      }
      var tasks, found := UpdateMatching(loaded.value, id, patch.description, now);
      if !found {
        return Err(NotFound);
      }
      file := Present(tasks);
      r := Ok(());
    }

    /** Removes the first task with the id. */
    method Delete(id: int) returns (r: Result<()>)
      modifies this
      ensures old(file).Unreadable? ==> r == Err(LoadFailed) && file == old(file)
      ensures !old(file).Unreadable? ==>
        var ts := LoadOrCreate(old(file)).value;
        if HasId(ts, id) then r == Ok(()) && file == Present(Removed(ts, id))
        else r == Err(NotFound) && file == old(file)
    {
      var loaded := LoadOrCreate(file);
      if loaded.Err? {
        return Err(loaded.error);
      }
      var tasks := loaded.value;
      var k := FindFirst(tasks, id);
      if k.None? {
        return Err(NotFound);
      }
      tasks := tasks[..k.value] + tasks[k.value + 1..];
      file := Present(tasks);
      r := Ok(());
    }

    /** Sets the status of the first task with the id; updatedAt is left alone. */
    method Mark(id: int, status: Status) returns (r: Result<()>)
      modifies this
      ensures old(file).Unreadable? ==> r == Err(LoadFailed) && file == old(file)
      ensures !old(file).Unreadable? ==>
        var ts := LoadOrCreate(old(file)).value;
        if HasId(ts, id) then r == Ok(()) && file == Present(Marked(ts, id, status))
        else r == Err(NotFound) && file == old(file)
    {
      var loaded := LoadOrCreate(file);
      if loaded.Err? {
        return Err(loaded.error);
      }
      var tasks := loaded.value;
      var k := FindFirst(tasks, id);
      if k.None? {
        return Err(NotFound);
      }
      tasks := tasks[k.value := tasks[k.value].(status := status)];
      file := Present(tasks);
      r := Ok(());
    }

    /** Returns the whole collection, or only the tasks with the filter's status; saves nothing. */
    method List(filter: Option<Status>) returns (r: Result<seq<Task>>)
      ensures file.Unreadable? ==> r == Err(LoadFailed)
      ensures !file.Unreadable? ==> r == Ok(Listed(LoadOrCreate(file).value, filter))
    {
      var loaded := LoadOrCreate(file);
      if loaded.Err? {
        return Err(loaded.error);
      }
      var tasks := loaded.value;
      if |tasks| == 0 || filter.None? {
        return Ok(tasks);
      }
      var filtered := FilterByStatus(tasks, filter.value);
      r := Ok(filtered);
    }
  }
}
