/** The store's dictionary as Python keeps it: a sequence of key/value slots in
    insertion order, where assigning to a present key overwrites its slot in
    place, assigning to a new key appends a slot, and deleting removes the slot.
    The module shows that running the service on this representation gives the
    same store as the map model and that iterating its values gives exactly the
    ascending-id listing `GetTimers`. */
module InsertionOrder {
  import opened PomodoroTimerModel
  import opened ProductivityService
  import opened ProductivityLaws

  /** One slot of the dictionary. */
  datatype Entry = Entry(key: int, value: PomodoroTimer)

  /** The module state with the dictionary kept in insertion order. */
  datatype DictStore = DictStore(entries: seq<Entry>, nextId: nat)

  predicate UniqueKeys(d: seq<Entry>)
  {
    forall i, j :: 0 <= i < j < |d| ==> d[i].key != d[j].key
  }

  predicate KeysIncreasing(d: seq<Entry>)
  {
    forall i, j :: 0 <= i < j < |d| ==> d[i].key < d[j].key
  }

  /** The key/value view of the dictionary, built slot by slot in insertion
      order. */
  function ToMap(d: seq<Entry>): map<int, PomodoroTimer>
    decreases |d|
  {
    if |d| == 0 then map[]
    else ToMap(d[..|d| - 1])[d[|d| - 1].key := d[|d| - 1].value]
  }

  /** The slot holding key k, or -1 when the dictionary has no such key. */
  function IndexOf(d: seq<Entry>, k: int): (i: int)
    ensures -1 <= i < |d|
    ensures i >= 0 ==> d[i].key == k
    ensures i < 0 <==> k !in ToMap(d)
    decreases |d|
  {
    if |d| == 0 then -1
    else if d[|d| - 1].key == k then |d| - 1
    else IndexOf(d[..|d| - 1], k)
  }

  /** `d[k] = v`: a present key's slot is overwritten in place and every other
      slot stays where it was; a new key's slot is appended after all the
      others. The view then maps k to v, and the keys stay increasing when k
      was present or lies above every key. */
  function Assign(d: seq<Entry>, k: int, v: PomodoroTimer): (r: seq<Entry>)
    ensures k in ToMap(d) ==> |r| == |d| && forall j :: 0 <= j < |d| && d[j].key != k ==> r[j] == d[j]
    ensures k !in ToMap(d) ==> |r| == |d| + 1 && r[..|d|] == d && r[|d|] == Entry(k, v)
    ensures UniqueKeys(d) ==> UniqueKeys(r) && ToMap(r) == ToMap(d)[k := v]
    ensures KeysIncreasing(d) && (k in ToMap(d) || forall j :: j in ToMap(d) ==> j < k) ==> KeysIncreasing(r)
  {
    var i := IndexOf(d, k);
    if i < 0 then
      var r := d + [Entry(k, v)];
      assert r[..|d|] == d;
      assert && (UniqueKeys(d) ==> UniqueKeys(r) && ToMap(r) == ToMap(d)[k := v])
             && (KeysIncreasing(d) && (forall j :: j in ToMap(d) ==> j < k) ==> KeysIncreasing(r)) by {
        if KeysIncreasing(d) {
          assert UniqueKeys(d);
        }
        if UniqueKeys(d) {
          AppendSlot(d, Entry(k, v));
        }
      }
      r
    else
      var r := d[i := Entry(k, v)];
      assert && (UniqueKeys(d) ==> UniqueKeys(r) && ToMap(r) == ToMap(d)[k := v])
             && (KeysIncreasing(d) ==> KeysIncreasing(r)) by {
        OverwriteKeepsKeys(d, i, Entry(k, v));
        if UniqueKeys(d) {
          OverwriteSlot(d, i, Entry(k, v));
        }
      }
      r
  }

  /** `del d[k]`: a missing key leaves the dictionary as it is; a present key's
      slot is dropped, the others keeping their order, so the view loses
      exactly k. */
  function Remove(d: seq<Entry>, k: int): (r: seq<Entry>)
    ensures k !in ToMap(d) ==> r == d
    ensures k in ToMap(d) ==> |r| == |d| - 1
    ensures k in ToMap(d) ==> exists i :: 0 <= i < |d| && d[i].key == k
                                 && (forall j :: 0 <= j < i ==> r[j] == d[j])
                                 && (forall j :: i <= j < |r| ==> r[j] == d[j + 1])
    ensures UniqueKeys(d) ==> UniqueKeys(r) && ToMap(r) == ToMap(d) - {k}
    ensures KeysIncreasing(d) ==> KeysIncreasing(r)
  {
    var i := IndexOf(d, k);
    if i < 0 then d
    else
      var r := d[..i] + d[i + 1..];
      assert forall j :: 0 <= j < i ==> r[j] == d[j];
      assert forall j :: i <= j < |r| ==> r[j] == d[j + 1];
      assert (UniqueKeys(d) ==> UniqueKeys(r) && ToMap(r) == ToMap(d) - {k}) && (KeysIncreasing(d) ==> KeysIncreasing(r)) by {
        DropSlotKeys(d, i);
        if UniqueKeys(d) {
          DropSlot(d, i);
        }
      }
      r
  }

  /** The values in insertion order, as iterating the dictionary yields them:
      one per slot, and with distinct keys the i-th is what the view maps the
      i-th slot's key to. */
  function Values(d: seq<Entry>): (r: seq<PomodoroTimer>)
    ensures |r| == |d|
    ensures UniqueKeys(d) ==> forall i :: 0 <= i < |d| ==> d[i].key in ToMap(d) && r[i] == ToMap(d)[d[i].key]
  {
    var r := seq(|d|, i requires 0 <= i < |d| => d[i].value);
    assert UniqueKeys(d) ==> forall i :: 0 <= i < |d| ==> d[i].key in ToMap(d) && r[i] == ToMap(d)[d[i].key] by {
      if UniqueKeys(d) {
        forall i | 0 <= i < |d| ensures d[i].key in ToMap(d) && ToMap(d)[d[i].key] == d[i].value {
          SlotValue(d, i);
        }
      }
    }
    r
  }

  /** Every slot's key is a key of the view. */
  lemma {:induction false} ToMapHas(d: seq<Entry>, x: int)
    requires 0 <= x < |d|
    ensures d[x].key in ToMap(d)
    decreases |d|
  {
    if x < |d| - 1 {
      var front := d[..|d| - 1];
      assert front[x] == d[x];
      ToMapHas(front, x);
    }
  }

  /** With distinct keys, the view maps every slot's key to that slot's value. */
  lemma {:induction false} SlotValue(d: seq<Entry>, x: int)
    requires UniqueKeys(d)
    requires 0 <= x < |d|
    ensures d[x].key in ToMap(d) && ToMap(d)[d[x].key] == d[x].value
    decreases |d|
  {
    if x < |d| - 1 {
      var front := d[..|d| - 1];
      assert front[x] == d[x];
      assert d[x].key != d[|d| - 1].key;
      SlotValue(front, x);
    }
  }

  /** Appending a slot with a new key adds that key to the view and keeps keys
      distinct; the keys stay increasing when the new key is above the others. */
  lemma AppendSlot(d: seq<Entry>, e: Entry)
    requires UniqueKeys(d)
    requires e.key !in ToMap(d)
    ensures UniqueKeys(d + [e])
    ensures ToMap(d + [e]) == ToMap(d)[e.key := e.value]
    ensures KeysIncreasing(d) && (forall j :: j in ToMap(d) ==> j < e.key) ==> KeysIncreasing(d + [e])
  {
    var r := d + [e];
    assert r[..|r| - 1] == d;
    forall x | 0 <= x < |d| ensures r[x] == d[x] && d[x].key in ToMap(d) {
      ToMapHas(d, x);
    }
  }

  /** Overwriting slot i with an entry of the same key keeps every slot's key. */
  lemma OverwriteKeepsKeys(d: seq<Entry>, i: int, e: Entry)
    requires 0 <= i < |d| && d[i].key == e.key
    ensures UniqueKeys(d) ==> UniqueKeys(d[i := e])
    ensures KeysIncreasing(d) ==> KeysIncreasing(d[i := e])
  {
  }

  /** With distinct keys, overwriting the slot of e's key changes only that
      key's value in the view. */
  lemma {:induction false} OverwriteSlot(d: seq<Entry>, i: int, e: Entry)
    requires UniqueKeys(d)
    requires 0 <= i < |d| && d[i].key == e.key
    ensures ToMap(d[i := e]) == ToMap(d)[e.key := e.value]
    decreases |d|
  {
    var front := d[..|d| - 1];
    var last := d[|d| - 1];
    var r := d[i := e];
    if i == |d| - 1 {
      assert r[..|r| - 1] == front;
    } else {
      assert r[..|r| - 1] == front[i := e];
      assert UniqueKeys(front);
      OverwriteSlot(front, i, e);
      assert e.key != last.key;
    }
  }

  /** Dropping a slot keeps the remaining keys distinct, and increasing when
      they were. */
  lemma DropSlotKeys(d: seq<Entry>, i: int)
    requires 0 <= i < |d|
    ensures UniqueKeys(d) ==> UniqueKeys(d[..i] + d[i + 1..])
    ensures KeysIncreasing(d) ==> KeysIncreasing(d[..i] + d[i + 1..])
  {
  }

  /** With distinct keys, the last slot's key is not a key of the other slots. */
  lemma LastKeyFresh(d: seq<Entry>)
    requires UniqueKeys(d)
    requires |d| > 0
    ensures d[|d| - 1].key !in ToMap(d[..|d| - 1])
  {
    // The slot search on the other slots finds no slot with the last key.
    var y := IndexOf(d[..|d| - 1], d[|d| - 1].key);
  }

  /** Dropping a slot other than the last commutes with splitting off the last
      slot. */
  lemma DropBeforeLast(d: seq<Entry>, i: int)
    requires 0 <= i < |d| - 1
    ensures var front := d[..|d| - 1];
            var r := d[..i] + d[i + 1..];
            && r == (front[..i] + front[i + 1..]) + [d[|d| - 1]]
            && r[..|r| - 1] == front[..i] + front[i + 1..]
            && front[i] == d[i]
            && (UniqueKeys(d) ==> UniqueKeys(front))
  {
  }

  /** With distinct keys, dropping slot i removes exactly its key from the view. */
  lemma {:induction false} DropSlot(d: seq<Entry>, i: int)
    requires UniqueKeys(d)
    requires 0 <= i < |d|
    ensures ToMap(d[..i] + d[i + 1..]) == ToMap(d) - {d[i].key}
    decreases |d|
  {
    var front := d[..|d| - 1];
    var r := d[..i] + d[i + 1..];
    LastKeyFresh(d);
    if i == |d| - 1 {
      assert r == front;
    } else {
      DropBeforeLast(d, i);
      DropSlot(front, i);
    }
  }

  /** The enumeration below n only looks at keys below n. */
  lemma {:induction false} CollectAgree(m1: map<int, PomodoroTimer>, m2: map<int, PomodoroTimer>, n: int)
    requires forall k :: 1 <= k < n ==> (k in m1 <==> k in m2)
    requires forall k :: 1 <= k < n && k in m1 ==> m1[k] == m2[k]
    ensures Collect(m1, n) == Collect(m2, n)
    decreases n
  {
    if n > 1 {
      CollectAgree(m1, m2, n - 1);
    }
  }

  /** Ids in [lo, n) with no record add nothing to the enumeration. */
  lemma {:induction false} CollectSkip(m: map<int, PomodoroTimer>, lo: int, n: int)
    requires 1 <= lo <= n
    requires forall k :: lo <= k < n ==> k !in m
    ensures Collect(m, n) == Collect(m, lo)
    decreases n
  {
    if n > lo {
      CollectSkip(m, lo, n - 1);
    }
  }

  /** The empty dictionary enumerates nothing. */
  lemma {:induction false} CollectEmpty(n: int)
    ensures Collect(map[], n) == []
    decreases n
  {
    if n > 1 {
      CollectEmpty(n - 1);
    }
  }

  /** Every key lies in [1, n). */
  predicate KeysWithin(d: seq<Entry>, n: int)
  {
    forall i :: 0 <= i < |d| ==> 1 <= d[i].key < n
  }

  /** When keys increase, every key but the last lies below the last. */
  lemma FrontKeysBelowLast(front: seq<Entry>, last: Entry)
    requires KeysIncreasing(front + [last])
    ensures KeysIncreasing(front)
    ensures forall k :: k in ToMap(front) ==> k < last.key
  {
    var d := front + [last];
    assert forall i :: 0 <= i < |front| ==> front[i] == d[i];
    forall k | k in ToMap(front) ensures k < last.key {
      var i := IndexOf(front, k);
      assert d[i].key == k && d[|front|] == last;
    }
  }

  /** Appending a slot whose key is above every other key and below n adds its
      value at the end of the enumeration below n. */
  lemma CollectLastSlot(front: seq<Entry>, last: Entry, n: int)
    requires KeysIncreasing(front + [last])
    requires KeysWithin(front + [last], n)
    ensures Collect(ToMap(front + [last]), n) == Collect(ToMap(front), last.key) + [last.value]
  {
    var d := front + [last];
    assert d[..|d| - 1] == front;
    FrontKeysBelowLast(front, last);
    var m := ToMap(d);
    var mf := ToMap(front);
    assert m == mf[last.key := last.value];
    assert 1 <= last.key < n by { assert d[|d| - 1] == last; }
    CollectSkip(m, last.key + 1, n);
    CollectAgree(m, mf, last.key);
  }

  /** A dictionary whose keys increase and lie in [1, n) yields its values in
      the order the ascending-id enumeration visits them. */
  lemma {:induction false} ValuesInIdOrder(d: seq<Entry>, n: int)
    requires KeysIncreasing(d)
    requires KeysWithin(d, n)
    ensures Values(d) == Collect(ToMap(d), n)
    decreases |d|
  {
    if |d| == 0 {
      CollectEmpty(n);
    } else {
      var front := d[..|d| - 1];
      var last := d[|d| - 1];
      assert d == front + [last];
      CollectLastSlot(front, last, n);
      FrontKeysBelowLast(front, last);
      assert KeysWithin(front, last.key);
      ValuesInIdOrder(front, last.key);
      assert Values(d) == Values(front) + [last.value];
    }
  }

  /** The store seen through its key/value view. */
  function Abstract(ds: DictStore): Store
  {
    Store(ToMap(ds.entries), ds.nextId)
  }

  /** The dictionary keeps keys in increasing order and its view is a valid store. */
  predicate Ordered(ds: DictStore)
  {
    KeysIncreasing(ds.entries) && Valid(Abstract(ds))
  }

  /** Iterating an ordered dictionary's values gives the ascending-id listing. */
  lemma ValuesAreListing(ds: DictStore)
    requires Ordered(ds)
    ensures Values(ds.entries) == GetTimers(Abstract(ds))
  {
    forall i | 0 <= i < |ds.entries| ensures ds.entries[i].key in ToMap(ds.entries) {
      ToMapHas(ds.entries, i);
    }
    ValuesInIdOrder(ds.entries, ds.nextId);
  }

  /** The Python code's step on the insertion-ordered dictionary. Only create
      moves the counter, a lookup or a failed update or delete leaves the
      dictionary as it is, reset empties it, and every call keeps the keys
      distinct. */
  function DictApply(ds: DictStore, op: Op): (r: DictStore)
    ensures r.nextId == if op.CreateOp? then ds.nextId + 1 else ds.nextId
    ensures op.ResetOp? ==> r.entries == []
    ensures op.GetTimersOp? || op.GetTimerOp? ==> r == ds
    ensures op.UpdateOp? && op.timer.id !in ToMap(ds.entries) ==> r == ds
    ensures op.DeleteOp? && op.id !in ToMap(ds.entries) ==> r == ds
    ensures UniqueKeys(ds.entries) ==> UniqueKeys(r.entries)
  {
    match op
    case ResetOp => ds.(entries := [])
    case GetTimersOp => ds
    case GetTimerOp(_) => ds
    case CreateOp(t) => DictStore(Assign(ds.entries, ds.nextId, t.(id := ds.nextId)), ds.nextId + 1)
    case UpdateOp(t) =>
      if t.id !in ToMap(ds.entries) then ds else ds.(entries := Assign(ds.entries, t.id, t))
    case DeleteOp(id) =>
      if id !in ToMap(ds.entries) then ds else ds.(entries := Remove(ds.entries, id))
  }

  function DictRun(ds: DictStore, ops: seq<Op>): DictStore
    decreases |ops|
  {
    if |ops| == 0 then ds else DictRun(DictApply(ds, ops[0]), ops[1..])
  }

  /** Create on the dictionary appends a slot under the counter's id. */
  lemma CreateSimulates(ds: DictStore, t: PomodoroTimer)
    requires Ordered(ds)
    ensures Abstract(DictApply(ds, CreateOp(t))) == Apply(Abstract(ds), CreateOp(t))
    ensures Ordered(DictApply(ds, CreateOp(t)))
  {
    var d := ds.entries;
    var created := t.(id := ds.nextId);
    assert UniqueKeys(d);
    assert forall j :: j in ToMap(d) ==> j < ds.nextId;
    var r := Assign(d, ds.nextId, created);
    assert ToMap(r) == ToMap(d)[ds.nextId := created];
    assert Abstract(DictApply(ds, CreateOp(t))) == CreateTimer(Abstract(ds), t).store;
  }

  /** Update on the dictionary overwrites the slot of a present id in place. */
  lemma UpdateSimulates(ds: DictStore, t: PomodoroTimer)
    requires Ordered(ds)
    ensures Abstract(DictApply(ds, UpdateOp(t))) == Apply(Abstract(ds), UpdateOp(t))
    ensures Ordered(DictApply(ds, UpdateOp(t)))
  {
    assert UniqueKeys(ds.entries);
  }

  /** Delete on the dictionary drops the slot of a present id. */
  lemma DeleteSimulates(ds: DictStore, id: int)
    requires Ordered(ds)
    ensures Abstract(DictApply(ds, DeleteOp(id))) == Apply(Abstract(ds), DeleteOp(id))
    ensures Ordered(DictApply(ds, DeleteOp(id)))
  {
    assert UniqueKeys(ds.entries);
  }

  /** One step on the dictionary keeps it ordered and matches the map model's step. */
  lemma DictApplySimulates(ds: DictStore, op: Op)
    requires Ordered(ds)
    ensures Abstract(DictApply(ds, op)) == Apply(Abstract(ds), op)
    ensures Ordered(DictApply(ds, op))
  {
    match op
    case ResetOp =>
    case GetTimersOp =>
    case GetTimerOp(_) =>
    case CreateOp(t) => CreateSimulates(ds, t);
    case UpdateOp(t) => UpdateSimulates(ds, t);
    case DeleteOp(id) => DeleteSimulates(ds, id);
  }

  /** Any run on the dictionary matches the same run on the map model. */
  lemma {:induction false} DictRunSimulates(ds: DictStore, ops: seq<Op>)
    requires Ordered(ds)
    ensures Abstract(DictRun(ds, ops)) == Run(Abstract(ds), ops)
    ensures Ordered(DictRun(ds, ops))
    decreases |ops|
  {
    if |ops| > 0 {
      DictApplySimulates(ds, ops[0]);
      DictRunSimulates(DictApply(ds, ops[0]), ops[1..]);
    }
  }

  /** After any run from the initial module state, iterating the dictionary
      lists exactly what `GetTimers` lists for the same run of the map model. */
  lemma InsertionOrderIsIdOrder(ops: seq<Op>)
    ensures Valid(Run(Initial(), ops))
    ensures Values(DictRun(DictStore([], 1), ops).entries) == GetTimers(Run(Initial(), ops))
  {
    var ds := DictStore([], 1);
    assert Abstract(ds) == Initial();
    DictRunSimulates(ds, ops);
    ValuesAreListing(DictRun(ds, ops));
  }
}
