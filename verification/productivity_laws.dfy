/** Properties of the timer store that relate several operations: the store
    invariant over any run of operations, read-after-write, the order in which
    ids are handed out, and the scenarios the service's tests exercise. */
module ProductivityLaws {
  import opened PomodoroTimerModel
  import opened ProductivityService

  /** One call on the service. Reads are included so that a run can interleave
      them; they leave the store as it is. */
  datatype Op =
    | ResetOp
    | GetTimersOp
    | GetTimerOp(id: int)
    | CreateOp(timer: PomodoroTimer)
    | UpdateOp(timer: PomodoroTimer)
    | DeleteOp(id: int)

  /** The store after one call. */
  function Apply(s: Store, op: Op): Store
  {
    match op
    case ResetOp => Reset(s)
    case GetTimersOp => s
    case GetTimerOp(_) => s
    case CreateOp(t) => CreateTimer(s, t).store
    case UpdateOp(t) => UpdateTimer(s, t).store
    case DeleteOp(id) => DeleteTimer(s, id).store
  }

  /** The store after a run of calls, first to last. */
  function Run(s: Store, ops: seq<Op>): Store
    decreases |ops|
  {
    if |ops| == 0 then s else Run(Apply(s, ops[0]), ops[1..])
  }

  /** Every run keeps the store invariant and never moves the id counter back. */
  lemma {:induction false} RunPreservesValid(s: Store, ops: seq<Op>)
    requires Valid(s)
    ensures Valid(Run(s, ops))
    ensures Run(s, ops).nextId >= s.nextId
    decreases |ops|
  {
    if |ops| > 0 {
      RunPreservesValid(Apply(s, ops[0]), ops[1..]);
    }
  }

  /** Every store the service can reach from its initial state is valid, so the
      listing is defined on it. */
  lemma ReachableIsValid(ops: seq<Op>)
    ensures Valid(Run(Initial(), ops))
  {
    RunPreservesValid(Initial(), ops);
  }

  /** No run of calls moves the id counter back, whatever store it starts from. */
  lemma {:induction false} RunNeverLowersCounter(s: Store, ops: seq<Op>)
    ensures Run(s, ops).nextId >= s.nextId
    decreases |ops|
  {
    if |ops| > 0 {
      RunNeverLowersCounter(Apply(s, ops[0]), ops[1..]);
    }
  }

  /** An id, once handed out, is never handed out again by any later create,
      whatever happens in between (including deletes and resets). */
  lemma {:induction false} IdsNeverReused(s: Store, t: PomodoroTimer, ops: seq<Op>, u: PomodoroTimer)
    ensures CreateTimer(Run(CreateTimer(s, t).store, ops), u).result.id > CreateTimer(s, t).result.id
  {
    RunNeverLowersCounter(CreateTimer(s, t).store, ops);
  }

  /** Two successive creates return distinct ids, the second exactly one above
      the first. */
  lemma SuccessiveCreatesIncrease(s: Store, t1: PomodoroTimer, t2: PomodoroTimer)
    ensures var first := CreateTimer(s, t1);
            var second := CreateTimer(first.store, t2);
            second.result.id == first.result.id + 1
  {
  }

  /** Create ignores the caller's id: a second create carrying the same id as
      the first succeeds rather than being rejected, and both records are then
      listed, under different ids. */
  lemma DuplicateCallerIdAccepted(s: Store, t1: PomodoroTimer, t2: PomodoroTimer)
    requires Valid(s)
    requires t1.id == t2.id
    ensures var first := CreateTimer(s, t1);
            var second := CreateTimer(first.store, t2);
            && second.result.id != first.result.id
            && |GetTimers(second.store)| == |GetTimers(s)| + 2
            && first.result in GetTimers(second.store)
            && second.result in GetTimers(second.store)
  {
  }

  /** Reset does not rewind the counter: the first create after a reset gets
      the id the store would have assigned anyway, which is not 1 once anything
      has been created. */
  lemma ResetKeepsNumbering(s: Store, t0: PomodoroTimer, t: PomodoroTimer)
    requires Valid(s)
    ensures CreateTimer(Reset(s), t).result.id == s.nextId
    ensures CreateTimer(Reset(CreateTimer(s, t0).store), t).result.id != 1
  {
  }

  /** After a reset the listing is empty. */
  lemma ResetEmptiesListing(s: Store)
    requires Valid(s)
    ensures GetTimers(Reset(s)) == []
  {
  }

  /** A created record is listed exactly once, and the listing grows by one. */
  lemma CreateListedOnce(s: Store, t: PomodoroTimer)
    requires Valid(s)
    ensures var r := CreateTimer(s, t);
            && multiset(GetTimers(r.store))[r.result] == 1
            && |GetTimers(r.store)| == |GetTimers(s)| + 1
  {
  }

  /** Looking up one id agrees with the listing: the id is found iff a listed
      record carries it, and then it is that record. */
  lemma GetTimerAgreesWithListing(s: Store, id: int)
    requires Valid(s)
    ensures GetTimer(s, id).Ok? <==> exists i :: 0 <= i < |GetTimers(s)| && GetTimers(s)[i].id == id
    ensures forall i :: 0 <= i < |GetTimers(s)| && GetTimers(s)[i].id == id ==> GetTimer(s, id) == Ok(GetTimers(s)[i])
  {
    var l := GetTimers(s);
    if id in s.timers {
      assert s.timers[id] in l;
      var i :| 0 <= i < |l| && l[i] == s.timers[id];
      assert l[i].id == id;
    }
  }

  /** Read-after-write for create: the new id reads back the created record;
      every other id reads as before. */
  lemma GetAfterCreate(s: Store, t: PomodoroTimer, id: int)
    ensures var r := CreateTimer(s, t);
            GetTimer(r.store, id) == if id == r.result.id then Ok(r.result) else GetTimer(s, id)
  {
  }

  /** Read-after-write for update: the updated id reads back the new record
      when it existed; every other id, and a failed update's id, read as before. */
  lemma GetAfterUpdate(s: Store, t: PomodoroTimer, id: int)
    ensures var r := UpdateTimer(s, t);
            GetTimer(r.store, id) == if id == t.id && t.id in s.timers then Ok(t) else GetTimer(s, id)
  {
  }

  /** Read-after-write for delete: the deleted id reads as NotFound; every other
      id reads as before. */
  lemma GetAfterDelete(s: Store, del: int, id: int)
    ensures var r := DeleteTimer(s, del);
            GetTimer(r.store, id) == if id == del then Err(NotFound) else GetTimer(s, id)
  {
  }

  /** Update and delete of an id that is not stored fail and change nothing. */
  lemma MissingIdFailsWithoutEffect(s: Store, t: PomodoroTimer, id: int)
    requires t.id !in s.timers && id !in s.timers
    ensures UpdateTimer(s, t) == Step(Err(NotFound), s)
    ensures DeleteTimer(s, id) == Step(Err(NotFound), s)
  {
  }

  /** The sample timer the tests build. */
  function Sample(id: int, name: string, breakLength: int): PomodoroTimer
  {
    PomodoroTimer(id, name, "Description", 10, breakLength)
  }

  /** After a reset, creating one timer lists exactly one. */
  lemma ScenarioAddTimer(s: Store)
    requires Valid(s)
    ensures |GetTimers(CreateTimer(Reset(s), Sample(1, "Sample", 5)).store)| == 1
  {
  }

  /** Updating the created timer with a new break length returns it with that
      break length and leaves the listing's length unchanged. */
  lemma ScenarioUpdateTimer(s: Store)
    requires Valid(s)
    ensures var created := CreateTimer(Reset(s), Sample(1, "Sample", 5));
            var updated := UpdateTimer(created.store, created.result.(breakLength := 10));
            && updated.result.Ok?
            && updated.result.value.id == created.result.id
            && updated.result.value.breakLength == 10
            && |GetTimers(updated.store)| == |GetTimers(created.store)|
  {
  }

  /** Deleting the created timer shortens the listing by one; deleting it again
      fails with NotFound. */
  lemma ScenarioDeleteTimer(s: Store)
    requires Valid(s)
    ensures var created := CreateTimer(Reset(s), Sample(1, "Sample", 5));
            var deleted := DeleteTimer(created.store, created.result.id);
            && deleted.result == Ok(())
            && |GetTimers(deleted.store)| == |GetTimers(created.store)| - 1
            && DeleteTimer(deleted.store, created.result.id).result == Err(NotFound)
  {
  }

  /** On a freshly reset store, updating id 1 fails with NotFound. */
  lemma ScenarioUpdateMissing(s: Store)
    requires Valid(s)
    ensures UpdateTimer(Reset(s), Sample(1, "Sample", 5)).result == Err(NotFound)
  {
  }

  /** On a freshly reset store, deleting id 1 fails with NotFound. */
  lemma ScenarioDeleteMissing(s: Store)
    requires Valid(s)
    ensures DeleteTimer(Reset(s), 1).result == Err(NotFound)
  {
  }
}
