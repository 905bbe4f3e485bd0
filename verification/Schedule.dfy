/** The timer list of the event loop as a value: entries in list order and the cached delay of the head. */
module Schedule {
  /** A task and the milliseconds it still has to wait. */
  datatype Entry<K> = Entry(key: K, due: nat)

  /** The linked list from its head on, and the cached `tout` that the next poll waits for. */
  datatype State<K> = State(tasks: seq<Entry<K>>, tout: int)

  /** The tasks one pass ran, in the order they ran, and the state it left. */
  datatype Outcome<K> = Outcome(ran: seq<K>, state: State<K>)

  const NO_TIMEOUT := -1

  ghost predicate Sorted<K>(s: seq<Entry<K>>) {
    forall i, j | 0 <= i < j < |s| :: s[i].due <= s[j].due
  }

  ghost predicate Distinct<K>(s: seq<Entry<K>>) {
    forall i, j | 0 <= i < j < |s| :: s[i].key != s[j].key
  }

  ghost predicate NoRepeat<K>(ks: seq<K>) {
    forall i, j | 0 <= i < j < |ks| :: ks[i] != ks[j]
  }

  function Keys<K>(s: seq<Entry<K>>): seq<K> {
    if s == [] then [] else [s[0].key] + Keys(s[1..])
  }

  // ---- The list operations ----

  /** In front of the first entry that is due no earlier. */
  function Insert<K>(s: seq<Entry<K>>, e: Entry<K>): seq<Entry<K>> {
    if s == [] || s[0].due >= e.due then [e] + s else [s[0]] + Insert(s[1..], e)
  }

  function Remove<K(==)>(s: seq<Entry<K>>, k: K): seq<Entry<K>> {
    if s == [] then [] else if s[0].key == k then s[1..] else [s[0]] + Remove(s[1..], k)
  }

  function Less(due: nat, et: nat): nat {
    if due > et then due - et else 0
  }

  function Adjust<K>(s: seq<Entry<K>>, et: nat): seq<Entry<K>> {
    if s == [] then [] else [Entry(s[0].key, Less(s[0].due, et))] + Adjust(s[1..], et)
  }

  /** What `tout` should say. */
  function HeadDue<K>(s: seq<Entry<K>>): int {
    if s == [] then NO_TIMEOUT else s[0].due
  }

  // ---- The same on states, with the cache as the code maintains it ----

  /** `tout` is written only when the new entry becomes the head. */
  function Add<K>(l: State<K>, e: Entry<K>): State<K> {
    State(Insert(l.tasks, e), if l.tasks == [] || l.tasks[0].due >= e.due then e.due else l.tout)
  }

  /** `tout` is written only when the head goes. */
  function Cancel<K(==)>(l: State<K>, k: K): State<K> {
    State(Remove(l.tasks, k), if l.tasks != [] && l.tasks[0].key == k then HeadDue(l.tasks[1..]) else l.tout)
  }

  /** Unlinks a task that has run; an answer of at least 1 puts it back. */
  function Execute<K(==)>(l: State<K>, k: K, ms: int): State<K> {
    var without := Cancel(l, k);
    if ms < 1 then without else Add(without, Entry(k, ms))
  }

  /** How many entries from the head on are due within `et`. */
  function DueBy<K>(s: seq<Entry<K>>, et: nat): (n: nat)
    ensures n <= |s|
    ensures forall i | 0 <= i < n :: s[i].due <= et
    ensures n < |s| ==> s[n].due > et
  {
    if s == [] || s[0].due > et then 0 else 1 + DueBy(s[1..], et)
  }

  /** Runs heads that are due until none is; `cb` gives the answers of the callbacks. */
  function RunDue<K(==)>(l: State<K>, cb: K -> int): Outcome<K>
    decreases DueBy(l.tasks, 0)
  {
    if l.tasks == [] || l.tasks[0].due >= 1 then Outcome([], l)
    else
      var k := l.tasks[0].key;
      ExecuteShrinks(l, cb(k));
      var o := RunDue(Execute(l, k, cb(k)), cb);
      Outcome([k] + o.ran, o.state)
  }

  /** One pass: `tout` is not written by the adjustment. */
  function Pass<K(==)>(l: State<K>, et: nat, cb: K -> int): Outcome<K> {
    RunDue(State(Adjust(l.tasks, et), l.tout), cb)
  }

  // ---- Insert and remove ----

  /** The index a new entry gets. */
  function Slot<K>(s: seq<Entry<K>>, due: nat): (k: nat)
    ensures k <= |s|
    ensures forall i | 0 <= i < k :: s[i].due < due
    ensures k < |s| ==> s[k].due >= due
  {
    if s == [] || s[0].due >= due then 0 else 1 + Slot(s[1..], due)
  }

  /** Insert puts the entry before the first one with at least its delay, and touches nothing else. */
  lemma {:induction false} InsertPlaces<K>(s: seq<Entry<K>>, e: Entry<K>, k: nat)
    requires k <= |s| && (forall i | 0 <= i < k :: s[i].due < e.due)
    requires k < |s| ==> s[k].due >= e.due
    ensures Insert(s, e) == s[..k] + [e] + s[k..]
  {
    if k > 0 {
      InsertPlaces(s[1..], e, k - 1);
      assert s == [s[0]] + s[1..];
    }
  }

  lemma {:induction false} InsertMembers<K>(s: seq<Entry<K>>, e: Entry<K>)
    ensures e in Insert(s, e) && (forall x | x in s :: x in Insert(s, e))
    ensures forall x | x in Insert(s, e) :: x == e || x in s
  {
    if s != [] && s[0].due < e.due {
      InsertMembers(s[1..], e);
      assert s == [s[0]] + s[1..];
    }
  }

  lemma InsertSorted<K>(s: seq<Entry<K>>, e: Entry<K>)
    requires Sorted(s)
    ensures Sorted(Insert(s, e))
  {
    hide Insert, Slot;
    var k := Slot(s, e.due);
    InsertPlaces(s, e, k);
    var r := Insert(s, e);
    assert forall i | 0 <= i < |r| :: r[i] == if i < k then s[i] else if i == k then e else s[i - 1];
  }

  lemma InsertDistinct<K>(s: seq<Entry<K>>, e: Entry<K>)
    requires Distinct(s) && forall x | x in s :: x.key != e.key
    ensures Distinct(Insert(s, e))
  {
    hide Insert, Slot;
    var k := Slot(s, e.due);
    InsertPlaces(s, e, k);
    var r := Insert(s, e);
    assert forall i | 0 <= i < |r| :: r[i] == if i < k then s[i] else if i == k then e else s[i - 1];
  }

  /** Remove takes out the one entry with this key; a key that is absent changes nothing. */
  lemma {:induction false} RemovePlaces<K>(s: seq<Entry<K>>, key: K, k: nat)
    requires k <= |s| && (forall i | 0 <= i < k :: s[i].key != key)
    requires k < |s| ==> s[k].key == key
    ensures Remove(s, key) == if k < |s| then s[..k] + s[k + 1..] else s
  {
    if k > 0 {
      var rest := s[1..];
      RemovePlaces(rest, key, k - 1);
      if k < |s| {
        assert s[..k] + s[k + 1..] == [s[0]] + (rest[..k - 1] + rest[k..]);
      } else {
        assert s == [s[0]] + rest;
      }
    }
  }

  function Find<K(==)>(s: seq<Entry<K>>, key: K): (k: nat)
    ensures k <= |s|
    ensures forall i | 0 <= i < k :: s[i].key != key
    ensures k < |s| ==> s[k].key == key
  {
    if s == [] || s[0].key == key then 0 else 1 + Find(s[1..], key)
  }

  lemma {:induction false} RemoveMembers<K>(s: seq<Entry<K>>, key: K)
    requires Distinct(s)
    ensures forall x | x in Remove(s, key) :: x in s && x.key != key
    ensures forall x | x in s && x.key != key :: x in Remove(s, key)
  {
    if s != [] {
      assert s == [s[0]] + s[1..];
      assert Distinct(s[1..]);
      RemoveMembers(s[1..], key);
      assert forall x | x in s[1..] :: x.key != s[0].key;
    }
  }

  lemma RemoveOrder<K>(s: seq<Entry<K>>, key: K)
    ensures Sorted(s) ==> Sorted(Remove(s, key))
    ensures Distinct(s) ==> Distinct(Remove(s, key))
  {
    hide Remove, Find;
    var k := Find(s, key);
    RemovePlaces(s, key, k);
    var r := Remove(s, key);
    assert forall i | 0 <= i < |r| :: r[i] == if i < k then s[i] else s[i + 1];
  }

  lemma {:induction false} AdjustAt<K>(s: seq<Entry<K>>, et: nat)
    ensures |Adjust(s, et)| == |s|
    ensures forall i | 0 <= i < |s| :: Adjust(s, et)[i] == Entry(s[i].key, Less(s[i].due, et))
  {
    if s != [] {
      AdjustAt(s[1..], et);
    }
  }

  lemma {:induction false} KeysAt<K>(s: seq<Entry<K>>)
    ensures |Keys(s)| == |s|
    ensures forall i | 0 <= i < |s| :: Keys(s)[i] == s[i].key
  {
    if s != [] {
      KeysAt(s[1..]);
    }
  }

  // ---- One pass ----

  /** A rescheduled task is not due again, so every execution leaves one due entry less. */
  lemma ExecuteShrinks<K>(l: State<K>, ms: int)
    requires l.tasks != [] && l.tasks[0].due < 1
    ensures DueBy(Execute(l, l.tasks[0].key, ms).tasks, 0) < DueBy(l.tasks, 0)
    ensures Execute(l, l.tasks[0].key, ms).tasks
         == if ms < 1 then l.tasks[1..] else Insert(l.tasks[1..], Entry(l.tasks[0].key, ms))
  {
    var rest := l.tasks[1..];
    if ms >= 1 {
      InsertNotDue(rest, Entry(l.tasks[0].key, ms));
    }
  }

  lemma {:induction false} InsertNotDue<K>(s: seq<Entry<K>>, e: Entry<K>)
    requires e.due >= 1
    ensures DueBy(Insert(s, e), 0) == DueBy(s, 0)
  {
    if s != [] && s[0].due < e.due {
      InsertNotDue(s[1..], e);
    }
  }

  /** The tasks that have run, put back one by one with the delays they asked for. */
  function Reschedule<K>(rest: seq<Entry<K>>, ran: seq<K>, cb: K -> int): seq<Entry<K>>
    decreases |ran|
  {
    if ran == [] then rest
    else Reschedule(if cb(ran[0]) < 1 then rest else Insert(rest, Entry(ran[0], cb(ran[0]))), ran[1..], cb)
  }

  lemma RunDueTurn<K>(l: State<K>, cb: K -> int)
    requires l.tasks != [] && l.tasks[0].due < 1
    ensures var k := l.tasks[0].key;
            var next := Execute(l, k, cb(k));
            && RunDue(l, cb) == Outcome([k] + RunDue(next, cb).ran, RunDue(next, cb).state)
            && next.tasks == if cb(k) < 1 then l.tasks[1..] else Insert(l.tasks[1..], Entry(k, cb(k)))
  {
    hide Execute, Insert, DueBy;
    ExecuteShrinks(l, cb(l.tasks[0].key));
  }

  /** Running heads while earlier ones reschedule: exactly the due prefix `z` runs, in order, each task once. */
  lemma {:induction false} RunDueIsPrefix<K>(z: seq<Entry<K>>, rest: seq<Entry<K>>, tout: int, cb: K -> int)
    requires (forall i | 0 <= i < |z| :: z[i].due == 0) && (rest != [] ==> rest[0].due >= 1)
    ensures RunDue(State(z + rest, tout), cb).ran == Keys(z)
    ensures RunDue(State(z + rest, tout), cb).state.tasks == Reschedule(rest, Keys(z), cb)
    decreases |z|
  {
    hide Execute, Insert, DueBy;
    var l := State(z + rest, tout);
    if z == [] {
      assert z + rest == rest;
    } else {
      hide RunDue;
      var key := z[0].key;
      var ms := cb(key);
      RunDueTurn(l, cb);
      assert l.tasks[1..] == z[1..] + rest;
      var left := if ms < 1 then rest else Insert(rest, Entry(key, ms));
      if ms >= 1 {
        InsertBehind(z[1..], rest, Entry(key, ms));
      }
      RunDueIsPrefix(z[1..], left, Execute(l, key, ms).tout, cb);
    }
  }

  /** An entry with a delay goes behind everything that is due. */
  lemma {:induction false} InsertBehind<K>(z: seq<Entry<K>>, rest: seq<Entry<K>>, e: Entry<K>)
    requires (forall i | 0 <= i < |z| :: z[i].due == 0) && e.due >= 1 && (rest != [] ==> rest[0].due >= 1)
    ensures Insert(z + rest, e) == z + Insert(rest, e)
    ensures Insert(rest, e) != [] && Insert(rest, e)[0].due >= 1
  {
    if z == [] {
      assert z + rest == rest;
    } else {
      assert (z + rest)[1..] == z[1..] + rest;
      InsertBehind(z[1..], rest, e);
    }
  }

  /**
    * One pass runs exactly the tasks whose delay is at most `et`, each once and in list order, even when
    * earlier ones reschedule. What is left is the others, reduced by `et`, plus the rescheduled ones.
    */
  lemma PassRunsDue<K>(l: State<K>, et: nat, cb: K -> int)
    requires Sorted(l.tasks)
    ensures var n := DueBy(l.tasks, et);
            && Pass(l, et, cb).ran == Keys(l.tasks[..n])
            && Pass(l, et, cb).state.tasks == Reschedule(Adjust(l.tasks[n..], et), Keys(l.tasks[..n]), cb)
            && (forall i | 0 <= i < |l.tasks| :: l.tasks[i].due <= et <==> i < n)
  {
    hide Adjust, Keys, RunDue, DueBy, Reschedule;
    var s, n := l.tasks, DueBy(l.tasks, et);
    var a := Adjust(s, et);
    AdjustAt(s, et);
    AdjustAt(s[n..], et);
    assert a == a[..n] + a[n..];
    RunDueIsPrefix(a[..n], a[n..], l.tout, cb);
    KeysAt(a[..n]);
    KeysAt(s[..n]);
    assert Keys(a[..n]) == Keys(s[..n]);
    assert a[n..] == Adjust(s[n..], et);
  }

  // ---- Whole runs ----

  /** What can happen to the list; a callback answers through `cb`. */
  datatype Event<!K> =
    | AddTask(key: K, ms: nat)
    | CancelTask(key: K)
    | Process(et: nat, cb: K -> int)
    | Clean

  function Step<K(==)>(l: State<K>, ev: Event<K>): Outcome<K> {
    match ev
    case AddTask(k, ms) => Outcome([], Add(l, Entry(k, ms)))
    case CancelTask(k) => Outcome([], Cancel(l, k))
    case Process(et, cb) => Pass(l, et, cb)
    case Clean => Outcome([], State([], NO_TIMEOUT))
  }

  /** addTask always makes a new task. */
  ghost predicate Admissible<K>(l: State<K>, ev: Event<K>) {
    ev.AddTask? ==> forall e | e in l.tasks :: e.key != ev.key
  }

  /** The reference: per live task the delay it was last given and the time it has waited since. */
  datatype Wait = Wait(ms: nat, waited: nat)

  type Ledger<K> = map<K, Wait>

  ghost predicate RunsNow<K>(led: Ledger<K>, k: K, et: nat) {
    k in led && led[k].waited + et >= led[k].ms
  }

  ghost function LedgerStep<K>(led: Ledger<K>, ev: Event<K>): Ledger<K> {
    match ev
    case AddTask(k, ms) => led[k := Wait(ms, 0)]
    case CancelTask(k) => led - {k}
    case Process(et, cb) =>
      map k | k in led && (RunsNow(led, k, et) ==> cb(k) >= 1) ::
        if RunsNow(led, k, et) then Wait(cb(k), 0) else Wait(led[k].ms, led[k].waited + et)
    case Clean => map[]
  }

  /** Sorted, no task twice, and every live task stored once with max(0, ms - waited). */
  ghost predicate Refines<K>(s: seq<Entry<K>>, led: Ledger<K>) {
    && Sorted(s) && Distinct(s)
    && (forall e | e in s :: e.key in led && e.due == Less(led[e.key].ms, led[e.key].waited))
    && (forall k | k in led :: Entry(k, Less(led[k].ms, led[k].waited)) in s)
  }

  lemma InsertRefines<K>(s: seq<Entry<K>>, led: Ledger<K>, k: K, ms: nat)
    requires Refines(s, led) && k !in led
    ensures Refines(Insert(s, Entry(k, ms)), led[k := Wait(ms, 0)])
  {
    hide Sorted, Distinct;
    InsertMembers(s, Entry(k, ms));
    InsertSorted(s, Entry(k, ms));
    InsertDistinct(s, Entry(k, ms));
  }

  lemma RemoveRefines<K>(s: seq<Entry<K>>, led: Ledger<K>, k: K)
    requires Refines(s, led)
    ensures Refines(Remove(s, k), led - {k})
  {
    hide Sorted, Distinct;
    RemoveMembers(s, k);
    RemoveOrder(s, k);
  }

  /** The ledger after the tasks in `ran` have answered. */
  ghost function Answered<K>(led: Ledger<K>, ran: seq<K>, cb: K -> int): Ledger<K>
    decreases |ran|
  {
    if ran == [] then led
    else Answered(if cb(ran[0]) < 1 then led else led[ran[0] := Wait(cb(ran[0]), 0)], ran[1..], cb)
  }

  lemma {:induction false} AnsweredAt<K>(led: Ledger<K>, ran: seq<K>, cb: K -> int)
    requires NoRepeat(ran) && forall k | k in ran :: k !in led
    ensures Answered(led, ran, cb).Keys == led.Keys + set k | k in ran && cb(k) >= 1
    ensures forall k | k in Answered(led, ran, cb) ::
              Answered(led, ran, cb)[k] == if k in led then led[k] else Wait(cb(k), 0)
    decreases |ran|
  {
    if ran != [] {
      AnsweredAt(if cb(ran[0]) < 1 then led else led[ran[0] := Wait(cb(ran[0]), 0)], ran[1..], cb);
    }
  }

  lemma {:induction false} RescheduleRefines<K>(s: seq<Entry<K>>, led: Ledger<K>, ran: seq<K>, cb: K -> int)
    requires Refines(s, led) && NoRepeat(ran) && forall k | k in ran :: k !in led
    ensures Refines(Reschedule(s, ran, cb), Answered(led, ran, cb))
    decreases |ran|
  {
    hide Refines;
    if ran != [] {
      var k := ran[0];
      if cb(k) < 1 {
        RescheduleRefines(s, led, ran[1..], cb);
      } else {
        InsertRefines(s, led, k, cb(k));
        RescheduleRefines(Insert(s, Entry(k, cb(k))), led[k := Wait(cb(k), 0)], ran[1..], cb);
      }
    }
  }

  /** The tasks that still wait. */
  ghost function Waiting<K>(led: Ledger<K>, et: nat): Ledger<K> {
    map k | k in led && !RunsNow(led, k, et) :: Wait(led[k].ms, led[k].waited + et)
  }

  lemma AdjustOrder<K>(s: seq<Entry<K>>, et: nat, n: nat)
    requires n <= |s|
    ensures Sorted(s) ==> Sorted(Adjust(s[n..], et))
    ensures Distinct(s) ==> Distinct(Adjust(s[n..], et))
  {
    hide Adjust;
    AdjustAt(s[n..], et);
  }

  /** The entries behind the due ones stand, reduced, for the tasks that still wait. */
  lemma AdjustRefines<K>(s: seq<Entry<K>>, led: Ledger<K>, et: nat)
    requires Refines(s, led)
    ensures Refines(Adjust(s[DueBy(s, et)..], et), Waiting(led, et))
  {
    hide DueBy, Adjust, Sorted, Distinct, Waiting;
    AdjustOrder(s, et, DueBy(s, et));
    AdjustStands(s, led, et);
    forall k | k in Waiting(led, et)
      ensures Entry(k, Less(Waiting(led, et)[k].ms, Waiting(led, et)[k].waited)) in Adjust(s[DueBy(s, et)..], et)
    {
      AdjustCovers(s, led, et, k);
    }
  }

  lemma IndexOf<K>(s: seq<Entry<K>>, e: Entry<K>) returns (i: nat)
    requires e in s
    ensures i < |s| && s[i] == e
  {
    i :| 0 <= i < |s| && s[i] == e;
  }

  lemma AdjustCovers<K>(s: seq<Entry<K>>, led: Ledger<K>, et: nat, k: K)
    requires Refines(s, led) && k in Waiting(led, et)
    ensures Entry(k, Less(Waiting(led, et)[k].ms, Waiting(led, et)[k].waited)) in Adjust(s[DueBy(s, et)..], et)
  {
    hide DueBy, Adjust, Sorted, Distinct, RunsNow;
    var n := DueBy(s, et);
    var i := IndexOf(s, Entry(k, Less(led[k].ms, led[k].waited)));
    DueIffRunsNow(s, led, et);
    var rest := s[n..];
    assert rest[i - n] == s[i];
    AdjustAt(rest, et);
    assert Adjust(rest, et)[i - n] == Entry(k, Less(s[i].due, et));
  }

  lemma AdjustStands<K>(s: seq<Entry<K>>, led: Ledger<K>, et: nat)
    requires Refines(s, led)
    ensures var wait := Waiting(led, et);
            forall e | e in Adjust(s[DueBy(s, et)..], et) ::
              e.key in wait && e.due == Less(wait[e.key].ms, wait[e.key].waited)
  {
    hide DueBy, Adjust, Sorted, Distinct;
    var n, wait := DueBy(s, et), Waiting(led, et);
    var a := Adjust(s[n..], et);
    AdjustAt(s[n..], et);
    DueIffRunsNow(s, led, et);
    forall i | 0 <= i < |a|
      ensures a[i].key in wait && a[i].due == Less(wait[a[i].key].ms, wait[a[i].key].waited)
    {
      assert s[n..][i] == s[n + i] && s[n + i] in s;
    }
  }

  lemma DueIffRunsNow<K>(s: seq<Entry<K>>, led: Ledger<K>, et: nat)
    requires Refines(s, led)
    ensures forall i | 0 <= i < |s| :: s[i].key in led && (i < DueBy(s, et) <==> RunsNow(led, s[i].key, et))
  {
    hide DueBy, Distinct;
    forall i | 0 <= i < |s|
      ensures s[i].key in led && (i < DueBy(s, et) <==> RunsNow(led, s[i].key, et))
    {
      assert s[i] in s;
    }
  }

  lemma DueKeys<K>(s: seq<Entry<K>>, led: Ledger<K>, et: nat)
    requires Refines(s, led)
    ensures NoRepeat(Keys(s[..DueBy(s, et)]))
    ensures forall k :: k in Keys(s[..DueBy(s, et)]) <==> RunsNow(led, k, et)
  {
    hide DueBy, Keys, Sorted;
    var n := DueBy(s, et);
    var ks := Keys(s[..n]);
    KeysAt(s[..n]);
    DueIffRunsNow(s, led, et);
    forall k | RunsNow(led, k, et)
      ensures k in ks
    {
      var i :| 0 <= i < |s| && s[i] == Entry(k, Less(led[k].ms, led[k].waited));
      assert ks[i] == k;
    }
  }

  /** A pass runs a task if and only if it has waited its delay, and no task twice. */
  lemma PassRefines<K>(l: State<K>, led: Ledger<K>, et: nat, cb: K -> int)
    requires Refines(l.tasks, led)
    ensures Refines(Pass(l, et, cb).state.tasks, LedgerStep(led, Process(et, cb)))
    ensures NoRepeat(Pass(l, et, cb).ran)
    ensures forall k :: k in Pass(l, et, cb).ran <==> RunsNow(led, k, et)
  {
    hide Refines, Pass, NoRepeat, RunsNow, Sorted;
    var n := DueBy(l.tasks, et);
    assert Sorted(l.tasks) by {
      RefinesIsSorted(l.tasks, led);
    }
    PassRunsDue(l, et, cb);
    AdjustRefines(l.tasks, led, et);
    DueKeys(l.tasks, led, et);
    var ran := Keys(l.tasks[..n]);
    RescheduleRefines(Adjust(l.tasks[n..], et), Waiting(led, et), ran, cb);
    AnsweredAt(Waiting(led, et), ran, cb);
    assert forall k | RunsNow(led, k, et) :: k in led by {
      RunsNowInLedger(led, et);
    }
    assert Answered(Waiting(led, et), ran, cb) == LedgerStep(led, Process(et, cb));
  }

  lemma RefinesIsSorted<K>(s: seq<Entry<K>>, led: Ledger<K>)
    requires Refines(s, led)
    ensures Sorted(s)
  {
  }

  lemma RunsNowInLedger<K>(led: Ledger<K>, et: nat)
    ensures forall k | RunsNow(led, k, et) :: k in led
  {
  }

  lemma StepRefines<K>(l: State<K>, led: Ledger<K>, ev: Event<K>)
    requires Refines(l.tasks, led) && Admissible(l, ev)
    ensures Refines(Step(l, ev).state.tasks, LedgerStep(led, ev))
    ensures NoRepeat(Step(l, ev).ran)
    ensures ev.Process? ==> forall k :: k in Step(l, ev).ran <==> RunsNow(led, k, ev.et)
  {
    match ev
    case AddTask(k, ms) => InsertRefines(l.tasks, led, k, ms);
    case CancelTask(k) => RemoveRefines(l.tasks, led, k);
    case Process(et, cb) => PassRefines(l, led, et, cb);
    case Clean =>
  }

  /** All events in turn; per event the tasks that ran. */
  function Run<K(==)>(l: State<K>, evs: seq<Event<K>>): (seq<seq<K>>, State<K>)
    decreases |evs|
  {
    if evs == [] then ([], l)
    else
      var o := Step(l, evs[0]);
      var (log, end) := Run(o.state, evs[1..]);
      ([o.ran] + log, end)
  }

  ghost predicate AdmissibleRun<K>(l: State<K>, evs: seq<Event<K>>)
    decreases |evs|
  {
    evs == [] || (Admissible(l, evs[0]) && AdmissibleRun(Step(l, evs[0]).state, evs[1..]))
  }

  ghost function LedgerRun<K>(led: Ledger<K>, evs: seq<Event<K>>): Ledger<K>
    decreases |evs|
  {
    if evs == [] then led else LedgerRun(LedgerStep(led, evs[0]), evs[1..])
  }

  /**
    * Over every run from the empty loop the stored delay of each live task is max(0, ms - waited), the list is
    * sorted, and the n-th event runs exactly the tasks that have then waited their delay, each once.
    */
  lemma {:induction false} RunRefines<K>(l: State<K>, led: Ledger<K>, evs: seq<Event<K>>, n: nat)
    requires Refines(l.tasks, led) && AdmissibleRun(l, evs)
    ensures Refines(Run(l, evs).1.tasks, LedgerRun(led, evs))
    ensures |Run(l, evs).0| == |evs|
    ensures n < |evs| ==> NoRepeat(Run(l, evs).0[n])
    ensures n < |evs| && evs[n].Process? ==>
              forall k :: k in Run(l, evs).0[n] <==> RunsNow(LedgerRun(led, evs[..n]), k, evs[n].et)
    decreases |evs|
  {
    hide Refines, Step, LedgerStep, NoRepeat, RunsNow;
    if evs != [] {
      StepRefines(l, led, evs[0]);
      RunRefines(Step(l, evs[0]).state, LedgerStep(led, evs[0]), evs[1..], if n == 0 then 0 else n - 1);
      if 0 < n < |evs| {
        assert evs[..n][1..] == evs[1..][..n - 1];
      }
    }
  }

  /** One more event at the end of a run. */
  lemma {:induction false} RunSnoc<K>(l: State<K>, led: Ledger<K>, evs: seq<Event<K>>, ev: Event<K>)
    ensures Run(l, evs + [ev]).0 == Run(l, evs).0 + [Step(Run(l, evs).1, ev).ran]
    ensures Run(l, evs + [ev]).1 == Step(Run(l, evs).1, ev).state
    ensures AdmissibleRun(l, evs) && Admissible(Run(l, evs).1, ev) ==> AdmissibleRun(l, evs + [ev])
    ensures LedgerRun(led, evs + [ev]) == LedgerStep(LedgerRun(led, evs), ev)
    decreases |evs|
  {
    hide Step, LedgerStep, Admissible;
    if evs == [] {
      assert (evs + [ev])[1..] == [];
    } else {
      assert (evs + [ev])[1..] == evs[1..] + [ev];
      var o := Step(l, evs[0]);
      assert [o.ran] + (Run(o.state, evs[1..]).0 + [Step(Run(l, evs).1, ev).ran])
          == ([o.ran] + Run(o.state, evs[1..]).0) + [Step(Run(l, evs).1, ev).ran];
      RunSnoc(Step(l, evs[0]).state, LedgerStep(led, evs[0]), evs[1..], ev);
    }
  }

  // ---- When a task runs ----

  function Elapsed<K>(evs: seq<Event<K>>): nat {
    if evs == [] then 0 else (if evs[0].Process? then evs[0].et else 0) + Elapsed(evs[1..])
  }

  /** Nothing in `evs` takes task `k` out or makes it anew. */
  ghost predicate LeavesAlone<K>(evs: seq<Event<K>>, k: K) {
    forall i | 0 <= i < |evs| :: !evs[i].Clean? && (evs[i].AddTask? || evs[i].CancelTask? ==> evs[i].key != k)
  }

  /** While the elapsed time stays below its delay a task waits, whatever else happens. */
  lemma {:induction false} Waits<K>(led: Ledger<K>, evs: seq<Event<K>>, k: K)
    requires LeavesAlone(evs, k) && k in led && led[k].waited + Elapsed(evs) < led[k].ms
    ensures k in LedgerRun(led, evs)
    ensures LedgerRun(led, evs)[k] == Wait(led[k].ms, led[k].waited + Elapsed(evs))
    decreases |evs|
  {
    if evs != [] {
      Waits(LedgerStep(led, evs[0]), evs[1..], k);
    }
  }

  lemma {:induction false} ElapsedMonotone<K>(evs: seq<Event<K>>, n: nat)
    requires n <= |evs|
    ensures Elapsed(evs[..n]) <= Elapsed(evs)
    ensures n < |evs| && evs[n].Process? ==> Elapsed(evs[..n]) + evs[n].et <= Elapsed(evs)
  {
    if n > 0 {
      ElapsedMonotone(evs[1..], n - 1);
      assert evs[..n][1..] == evs[1..][..n - 1];
    }
  }

  /** A new task, left alone over `evs`, then a pass. */
  function Scenario<K>(k: K, ms: nat, evs: seq<Event<K>>, et: nat, cb: K -> int): seq<Event<K>> {
    [AddTask(k, ms)] + evs + [Process(et, cb)]
  }

  /** A new task that is left alone runs in the pass that brings the elapsed time to `ms`. */
  lemma RunsOnTime<K>(l: State<K>, led: Ledger<K>, k: K, ms: nat, evs: seq<Event<K>>, et: nat, cb: K -> int)
    requires Refines(l.tasks, led) && LeavesAlone(evs, k) && Elapsed(evs) < ms <= Elapsed(evs) + et
    requires AdmissibleRun(l, Scenario(k, ms, evs, et, cb))
    ensures |Run(l, Scenario(k, ms, evs, et, cb)).0| == |evs| + 2
    ensures k in Run(l, Scenario(k, ms, evs, et, cb)).0[|evs| + 1]
  {
    hide Refines, Run, AdmissibleRun, NoRepeat, LeavesAlone;
    var all := Scenario(k, ms, evs, et, cb);
    RunRefines(l, led, all, |evs| + 1);
    assert all[..|evs| + 1] == [AddTask(k, ms)] + evs;
    assert ([AddTask(k, ms)] + evs)[1..] == evs;
    Waits(LedgerStep(led, AddTask(k, ms)), evs, k);
  }

  /** And in none of the passes before. */
  lemma NeverEarly<K>(l: State<K>, led: Ledger<K>, k: K, ms: nat, evs: seq<Event<K>>, n: nat)
    requires Refines(l.tasks, led) && LeavesAlone(evs, k) && Elapsed(evs) < ms && n <= |evs|
    requires AdmissibleRun(l, [AddTask(k, ms)] + evs)
    ensures |Run(l, [AddTask(k, ms)] + evs).0| == |evs| + 1
    ensures k !in Run(l, [AddTask(k, ms)] + evs).0[n]
  {
    hide Refines, Run, AdmissibleRun, NoRepeat;
    var all := [AddTask(k, ms)] + evs;
    RunRefines(l, led, all, n);
    if !all[n].Process? {
      NothingRuns(l, all, n);
    } else {
      assert all[..n] == [AddTask(k, ms)] + evs[..n - 1] && all[..n][1..] == evs[..n - 1];
      ElapsedMonotone(evs, n - 1);
      Waits(LedgerStep(led, AddTask(k, ms)), evs[..n - 1], k);
    }
  }

  lemma {:induction false} NothingRuns<K>(l: State<K>, evs: seq<Event<K>>, n: nat)
    requires n < |evs|
    ensures |Run(l, evs).0| == |evs|
    ensures !evs[n].Process? ==> Run(l, evs).0[n] == []
    decreases |evs|
  {
    hide Pass;
    var o := Step(l, evs[0]);
    if n > 0 {
      NothingRuns(o.state, evs[1..], n - 1);
    } else if |evs| > 1 {
      NothingRuns(o.state, evs[1..], 0);
    }
  }

  // ---- The cached delay ----

  /** What holds of the cache in every state. */
  ghost predicate CacheSound<K>(l: State<K>) {
    l.tout == NO_TIMEOUT == HeadDue(l.tasks) || (l.tasks != [] && l.tout >= HeadDue(l.tasks))
  }

  ghost predicate CacheExact<K>(l: State<K>) {
    l.tout == HeadDue(l.tasks)
  }

  lemma {:induction false} RunDueCache<K>(l: State<K>, cb: K -> int)
    requires CacheSound(l)
    ensures CacheSound(RunDue(l, cb).state)
    ensures CacheExact(l) || RunDue(l, cb).ran != [] ==> CacheExact(RunDue(l, cb).state)
    decreases DueBy(l.tasks, 0)
  {
    if l.tasks != [] && l.tasks[0].due < 1 {
      var k := l.tasks[0].key;
      ExecuteShrinks(l, cb(k));
      RunDueCache(Execute(l, k, cb(k)), cb);
    }
  }

  lemma StepCache<K>(l: State<K>, ev: Event<K>)
    requires CacheSound(l)
    ensures CacheSound(Step(l, ev).state)
  {
    if ev.Process? {
      AdjustAt(l.tasks, ev.et);
      RunDueCache(State(Adjust(l.tasks, ev.et), l.tout), ev.cb);
    }
  }

  /** In every run `tout` is -1 exactly when the list is empty and never below the delay of the head. */
  lemma {:induction false} RunCache<K>(l: State<K>, evs: seq<Event<K>>)
    requires CacheSound(l)
    ensures CacheSound(Run(l, evs).1)
    decreases |evs|
  {
    hide Step, CacheSound;
    if evs != [] {
      StepCache(l, evs[0]);
      RunCache(Step(l, evs[0]).state, evs[1..]);
    }
  }

  /** A pass that runs a task leaves the cache exact, however stale it was. */
  lemma PassCache<K>(l: State<K>, et: nat, cb: K -> int)
    requires CacheSound(l)
    ensures CacheSound(Pass(l, et, cb).state)
    ensures Pass(l, et, cb).ran != [] ==> CacheExact(Pass(l, et, cb).state)
    ensures Pass(l, et, cb).ran == [] <==> l.tasks == [] || l.tasks[0].due > et
    ensures Pass(l, et, cb).ran == [] ==> Pass(l, et, cb).state == State(Adjust(l.tasks, et), l.tout)
  {
    AdjustAt(l.tasks, et);
    RunDueCache(State(Adjust(l.tasks, et), l.tout), cb);
  }

  /** When an event writes `tout`. */
  predicate Writes<K(==)>(l: State<K>, ev: Event<K>) {
    match ev
    case AddTask(_, ms) => l.tasks == [] || l.tasks[0].due >= ms
    case CancelTask(k) => l.tasks != [] && l.tasks[0].key == k
    case Process(et, _) => l.tasks != [] && l.tasks[0].due <= et
    case Clean => true
  }

  /** How far the cache is above the delay of the head. */
  function Drift<K>(l: State<K>): int {
    l.tout - HeadDue(l.tasks)
  }

  /** A write clears the drift; an idle pass adds its time to it; everything else keeps it. */
  lemma DriftAfter<K>(l: State<K>, ev: Event<K>)
    requires CacheSound(l)
    ensures CacheSound(Step(l, ev).state)
    ensures Writes(l, ev) ==> Drift(Step(l, ev).state) == 0
    ensures !Writes(l, ev) ==>
              && (Step(l, ev).state.tasks == [] <==> l.tasks == [])
              && Drift(Step(l, ev).state) == Drift(l) + if ev.Process? && l.tasks != [] then ev.et else 0
  {
    StepCache(l, ev);
    if ev.Process? {
      hide Pass;
      AdjustAt(l.tasks, ev.et);
      PassCache(l, ev.et, ev.cb);
    }
  }

  /** From any reachable state: after which events, and when, the cache is the delay of the head. */
  lemma CacheExactAfter<K>(l: State<K>, ev: Event<K>)
    requires CacheSound(l)
    ensures CacheExact(Step(l, ev).state) <==>
            match ev
            case AddTask(_, ms) => CacheExact(l) || l.tasks == [] || l.tasks[0].due >= ms
            case CancelTask(k) => CacheExact(l) || (l.tasks != [] && l.tasks[0].key == k)
            case Process(et, _) => l.tasks == [] || l.tasks[0].due <= et || (CacheExact(l) && et == 0)
            case Clean => true
  {
    DriftAfter(l, ev);
  }

  /** The last event of a run that writes `tout`, or -1. */
  function LastWrite<K(==)>(l: State<K>, evs: seq<Event<K>>): (r: int)
    ensures -1 <= r < |evs|
    decreases |evs|
  {
    if evs == [] then -1
    else
      var r := LastWrite(Step(l, evs[0]).state, evs[1..]);
      if r >= 0 then r + 1 else if Writes(l, evs[0]) then 0 else -1
  }

  lemma {:induction false} LastWriteIsLast<K>(l: State<K>, evs: seq<Event<K>>, i: nat)
    requires LastWrite(l, evs) <= i < |evs|
    ensures Writes(Run(l, evs[..i]).1, evs[i]) <==> i == LastWrite(l, evs)
    decreases |evs|
  {
    hide Step, Writes;
    if i == 0 {
      assert Run(l, evs[..0]).1 == l;
    } else {
      assert evs[..i][1..] == evs[1..][..i - 1];
      LastWriteIsLast(Step(l, evs[0]).state, evs[1..], i - 1);
    }
  }

  lemma RunNil<K>(l: State<K>)
    ensures Run(l, []).1 == l
  {
  }

  lemma RunCons<K>(l: State<K>, evs: seq<Event<K>>)
    requires evs != []
    ensures Run(l, evs).1 == Run(Step(l, evs[0]).state, evs[1..]).1
    ensures Elapsed(evs) == (if evs[0].Process? then evs[0].et else 0) + Elapsed(evs[1..])
    ensures var r := LastWrite(Step(l, evs[0]).state, evs[1..]);
            LastWrite(l, evs) == if r >= 0 then r + 1 else if Writes(l, evs[0]) then 0 else -1
  {
  }

  /** Over every run the cache is ahead of the head by exactly the time that has passed since it was last written. */
  lemma {:induction false} DriftOfRun<K>(l: State<K>, evs: seq<Event<K>>)
    requires CacheSound(l)
    ensures var end, r := Run(l, evs).1, LastWrite(l, evs);
            && (r >= 0 ==> Drift(end) == if end.tasks == [] then 0 else Elapsed(evs[r + 1..]))
            && (r < 0 ==> (end.tasks == [] <==> l.tasks == [])
                          && Drift(end) == Drift(l) + if end.tasks == [] then 0 else Elapsed(evs))
    decreases |evs|
  {
    if evs == [] {
      RunNil(l);
    } else {
      hide Step, Writes, CacheSound, Drift, Run, Elapsed, LastWrite;
      RunCons(l, evs);
      DriftAfter(l, evs[0]);
      var next := Step(l, evs[0]).state;
      DriftOfRun(next, evs[1..]);
      var r := LastWrite(next, evs[1..]);
      if r >= 0 {
        assert evs[1..][r + 1..] == evs[r + 2..];
      }
    }
  }

  lemma ExactIsNoDrift<K>(l: State<K>)
    ensures CacheExact(l) <==> Drift(l) == 0
    ensures CacheExact(l) ==> CacheSound(l)
  {
  }

  /** From an exact cache it is exact if and only if nothing waits or no time has passed since it was last written. */
  lemma CacheExactInRuns<K>(l: State<K>, evs: seq<Event<K>>)
    requires CacheExact(l)
    ensures var end := Run(l, evs).1;
            CacheExact(end) <==> end.tasks == [] || Elapsed(evs[LastWrite(l, evs) + 1..]) == 0
  {
    hide *;
    ExactIsNoDrift(l);
    ExactIsNoDrift(Run(l, evs).1);
    DriftOfRun(l, evs);
    assert evs[0..] == evs;
  }

  /** The cache is not the timeout of the head after an idle pass: 10 ms are stored, 4 have passed. */
  lemma CacheStale(k: int)
    ensures var l := Step(State([Entry(k, 10)], 10), Process(4, (_: int) => 0)).state;
            l.tasks == [Entry(k, 6)] && l.tout == 10
  {
    assert Adjust([Entry(k, 10)], 4) == [Entry(k, 6)];
  }
}
