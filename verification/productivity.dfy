/** The in-memory timer store that stands in for a database: a key-value map
    from timer id to timer record together with the counter that supplies the
    next id. The module-level state of the service is modelled as one explicit
    `Store` value; every operation takes the store and returns its successor. */
module ProductivityService {
  import opened PomodoroTimerModel

  /** The one failure the service raises: the referenced id has no record. */
  datatype Error = NotFound

  datatype Result<T> = Ok(value: T) | Err(error: Error)

  /** The state of the store: the stored timers keyed by id, and the id that the
      next create will assign. */
  datatype Store = Store(timers: map<int, PomodoroTimer>, nextId: nat)

  /** What an operation replies together with the store it leaves behind. */
  datatype Step<T> = Step(result: T, store: Store)

  /** True iff every stored record carries the key it is stored under. */
  predicate WellKeyed(m: map<int, PomodoroTimer>)
  {
    forall k :: k in m ==> m[k].id == k
  }

  /** The store invariant: the counter is at least 1, every key lies in
      [1, nextId), and every record is stored under its own id. */
  predicate Valid(s: Store)
  {
    && s.nextId >= 1
    && WellKeyed(s.timers)
    && forall k :: k in s.timers ==> 1 <= k < s.nextId
  }

  /** The state when the service is first loaded: no timers, counter at 1. */
  function Initial(): (s: Store)
    ensures Valid(s)
    ensures |s.timers| == 0
    ensures s.nextId == 1
  {
    Store(map[], 1)
  }

  /** Drops every timer. The id counter is NOT rewound: ids handed out after a
      reset continue from where they were. */
  function Reset(s: Store): (r: Store)
    ensures |r.timers| == 0
    ensures forall id :: GetTimer(r, id) == Err(NotFound)
    ensures r.nextId == s.nextId
    ensures s.nextId >= 1 ==> Valid(r)
  {
    s.(timers := map[])
  }

  /** The stored record with the given id, or NotFound. */
  function GetTimer(s: Store, id: int): (r: Result<PomodoroTimer>)
    ensures r.Ok? <==> id in s.timers
    ensures r.Ok? ==> r.value == s.timers[id]
    ensures Valid(s) && r.Ok? ==> r.value.id == id
    ensures r.Err? ==> r.error == NotFound
  {
    if id !in s.timers then Err(NotFound) else Ok(s.timers[id])
  }

  /** The records stored under ids 1 .. n-1, in ascending id order. */
  function Collect(m: map<int, PomodoroTimer>, n: int): (l: seq<PomodoroTimer>)
    ensures forall t :: t in l ==> t in m.Values
    decreases n
  {
    if n <= 1 then []
    else
      var below := Collect(m, n - 1);
      if n - 1 in m then below + [m[n - 1]] else below
  }

  /** The stored ids below n that the enumeration visits. */
  ghost function IdsBelow(m: map<int, PomodoroTimer>, n: int): set<int>
  {
    set k | k in m && 1 <= k < n
  }

  /** True iff the ids along l strictly increase. */
  ghost predicate IdsIncreasing(l: seq<PomodoroTimer>)
  {
    forall i, j :: 0 <= i < j < |l| ==> l[i].id < l[j].id
  }

  /** On a well-keyed map, each record `Collect(m, n)` lists is the one stored
      under its own id, and that id lies in [1, n). */
  lemma {:induction false} CollectSound(m: map<int, PomodoroTimer>, n: int)
    requires WellKeyed(m)
    ensures forall i :: 0 <= i < |Collect(m, n)| ==>
      Collect(m, n)[i].id in m && m[Collect(m, n)[i].id] == Collect(m, n)[i] && 1 <= Collect(m, n)[i].id < n
    decreases n
  {
    if n > 1 {
      CollectSound(m, n - 1);
    }
  }

  /** On a well-keyed map, the ids along `Collect(m, n)` strictly increase. */
  lemma {:induction false} CollectIncreasing(m: map<int, PomodoroTimer>, n: int)
    requires WellKeyed(m)
    ensures IdsIncreasing(Collect(m, n))
    decreases n
  {
    if n > 1 {
      CollectIncreasing(m, n - 1);
      CollectSound(m, n - 1);
    }
  }

  /** `Collect(m, n)` lists every record stored under an id in [1, n). */
  lemma {:induction false} CollectComplete(m: map<int, PomodoroTimer>, n: int)
    ensures forall k :: k in m && 1 <= k < n ==> m[k] in Collect(m, n)
    decreases n
  {
    if n > 1 {
      CollectComplete(m, n - 1);
    }
  }

  /** `Collect(m, n)` has one entry per stored id in [1, n). */
  lemma {:induction false} CollectLength(m: map<int, PomodoroTimer>, n: int)
    ensures |Collect(m, n)| == |IdsBelow(m, n)|
    decreases n
  {
    if n > 1 {
      CollectLength(m, n - 1);
      if n - 1 in m {
        assert IdsBelow(m, n) == IdsBelow(m, n - 1) + {n - 1};
      } else {
        assert IdsBelow(m, n) == IdsBelow(m, n - 1);
      }
    } else {
      assert IdsBelow(m, n) == {};
    }
  }

  /** A sequence whose ids strictly increase holds each of its elements once. */
  lemma {:induction false} IncreasingHoldsOnce(l: seq<PomodoroTimer>, t: PomodoroTimer)
    requires IdsIncreasing(l)
    requires t in l
    ensures multiset(l)[t] == 1
    decreases |l|
  {
    var last := l[|l| - 1];
    var front := l[..|l| - 1];
    assert l == front + [last];
    assert IdsIncreasing(front);
    if t == last {
      assert t !in front by {
        forall i | 0 <= i < |front| ensures front[i] != t {
          assert front[i].id < last.id;
        }
      }
    } else {
      IncreasingHoldsOnce(front, t);
    }
  }

  /** The listing of all timers. The source returns its dictionary's values,
      which come in insertion order; in a valid store that is ascending id
      order, since every create inserts a key above all live keys and every
      update overwrites in place. */
  function GetTimers(s: Store): (l: seq<PomodoroTimer>)
    requires Valid(s)
    ensures |l| == |s.timers|
    ensures forall i :: 0 <= i < |l| ==> l[i].id in s.timers && s.timers[l[i].id] == l[i]
    ensures IdsIncreasing(l)
    ensures forall k :: k in s.timers ==> multiset(l)[s.timers[k]] == 1
  {
    CollectSound(s.timers, s.nextId);
    CollectIncreasing(s.timers, s.nextId);
    CollectComplete(s.timers, s.nextId);
    CollectLength(s.timers, s.nextId);
    assert IdsBelow(s.timers, s.nextId) == s.timers.Keys;
    var l := Collect(s.timers, s.nextId);
    assert forall k :: k in s.timers ==> multiset(l)[s.timers[k]] == 1 by {
      forall k | k in s.timers ensures multiset(l)[s.timers[k]] == 1 {
        IncreasingHoldsOnce(l, s.timers[k]);
      }
    }
    l
  }

  /** Stores a copy of the timer under the counter's id, whatever id the caller
      gave, advances the counter by one, and returns the stored record. */
  function CreateTimer(s: Store, timer: PomodoroTimer): (r: Step<PomodoroTimer>)
    ensures r.result.id == s.nextId
    ensures r.result == timer.(id := r.result.id)
    ensures r.store.nextId == s.nextId + 1
    ensures r.store.timers.Keys == s.timers.Keys + {r.result.id}
    ensures GetTimer(r.store, r.result.id) == Ok(r.result)
    ensures forall k :: k in s.timers && k != r.result.id ==> r.store.timers[k] == s.timers[k]
    ensures Valid(s) ==> Valid(r.store)
    ensures Valid(s) ==> r.result.id !in s.timers && |r.store.timers| == |s.timers| + 1
  {
    var created := timer.(id := s.nextId);
    Step(created, Store(s.timers[s.nextId := created], s.nextId + 1))
  }

  /** Replaces the whole stored record that has the timer's id, or fails with
      NotFound (leaving the store as it was) when there is none. */
  function UpdateTimer(s: Store, timer: PomodoroTimer): (r: Step<Result<PomodoroTimer>>)
    ensures timer.id !in s.timers ==> r.result == Err(NotFound) && r.store == s
    ensures timer.id in s.timers ==>
      && r.result == Ok(timer)
      && GetTimer(r.store, timer.id) == Ok(timer)
      && r.store.timers.Keys == s.timers.Keys
      && |r.store.timers| == |s.timers|
      && r.store.nextId == s.nextId
    ensures forall k :: k in s.timers && k != timer.id ==> k in r.store.timers && r.store.timers[k] == s.timers[k]
    ensures Valid(s) ==> Valid(r.store)
  {
    if timer.id !in s.timers then Step(Err(NotFound), s)
    else Step(Ok(timer), s.(timers := s.timers[timer.id := timer]))
  }

  /** Removes the record with the given id, or fails with NotFound (leaving the
      store as it was) when there is none. */
  function DeleteTimer(s: Store, id: int): (r: Step<Result<()>>)
    ensures id !in s.timers ==> r.result == Err(NotFound) && r.store == s
    ensures id in s.timers ==>
      && r.result == Ok(())
      && GetTimer(r.store, id) == Err(NotFound)
      && r.store.timers.Keys == s.timers.Keys - {id}
      && |r.store.timers| == |s.timers| - 1
      && r.store.nextId == s.nextId
    ensures forall k :: k in s.timers && k != id ==> k in r.store.timers && r.store.timers[k] == s.timers[k]
    ensures Valid(s) ==> Valid(r.store)
  {
    if id !in s.timers then Step(Err(NotFound), s)
    else Step(Ok(()), s.(timers := s.timers - {id}))
  }
}
