/** The timer list of the event loop on the heap: tasks linked through `nxt`, driven by the loop object. */
module Timers {
  import opened Schedule

  class Task {
    var tout: nat
    var nxt: Task?

    constructor (ms: nat)
      ensures tout == ms && nxt == null
    {
      tout, nxt := ms, null;
    }
  }

  /** The task at place `i`, or null past the end. */
  ghost function At(ts: seq<Task>, i: nat): Task? {
    if i < |ts| then ts[i] else null
  }

  /** Following `nxt` from the head visits exactly `ts` and ends: the list has no cycle. */
  ghost predicate Linked(head: Task?, ts: seq<Task>)
    reads ts
  {
    && head == At(ts, 0)
    && (forall i | 0 <= i < |ts| :: ts[i].nxt == At(ts, i + 1))
    && NoRepeat(ts)
  }

  /** Removal in terms of the candidate's place. */
  lemma CancelAt(l: State<Task>, cnd: Task, k: nat)
    requires k <= |l.tasks| && (forall i | 0 <= i < k :: l.tasks[i].key != cnd)
    requires k < |l.tasks| ==> l.tasks[k].key == cnd
    ensures Cancel(l, cnd) == State(Remove(l.tasks, cnd),
                                    if k > 0 || l.tasks == [] then l.tout
                                    else if |l.tasks| == 1 then NO_TIMEOUT else l.tasks[1].due)
  {
    hide Remove;
  }

  lemma SplicedAt(ts: seq<Task>, k: nat, t: Task)
    requires NoRepeat(ts) && t !in ts && k <= |ts|
    ensures var us := ts[..k] + [t] + ts[k..];
            && NoRepeat(us)
            && (forall i | 0 <= i < |us| :: us[i] == if i < k then ts[i] else if i == k then t else ts[i - 1])
            && (k > 0 ==> forall i | 0 <= i < |ts| && i != k - 1 :: ts[i] != ts[k - 1])
  {
    var us := ts[..k] + [t] + ts[k..];
    assert forall i | 0 <= i < |us| :: us[i] == if i < k then ts[i] else if i == k then t else ts[i - 1];
  }

  class Loop {
    var head: Task?
    var tout: int
    var run: bool
    var fdCount: nat
    /** The tasks in list order. */
    ghost var spine: seq<Task>

    constructor ()
      ensures Valid() && Abstract() == State([], NO_TIMEOUT) && fdCount == 0
    {
      head, tout, run, fdCount, spine := null, NO_TIMEOUT, false, 0, [];
    }

    /** The list is sorted, and `tout` is -1 exactly for the empty list and never below the head's delay. */
    ghost predicate Valid()
      reads this, spine
    {
      Linked(head, spine) && Sorted(Entries()) && CacheSound(Abstract())
    }

    ghost function Entries(): (s: seq<Entry<Task>>)
      reads this, spine
      ensures |s| == |spine| && forall i | 0 <= i < |s| :: s[i] == Entry(spine[i], spine[i].tout)
    {
      seq(|spine|, i requires 0 <= i < |spine| reads this, spine => Entry(spine[i], spine[i].tout))
    }

    ghost function Abstract(): State<Task>
      reads this, spine
    {
      State(Entries(), tout)
    }

    // ---- Links ----

    /** A new head in front of the old one: the link stores. */
    method StoreHead(ins: Task)
      requires Linked(head, spine) && ins !in spine && (spine == [] ==> ins.nxt == null)
      modifies this`head, this`spine, ins`nxt
      ensures Linked(head, spine) && spine == [ins] + old(spine)
    {
      ghost var ts := spine;
      if head != null {
        ins.nxt := head;
      }
      head, spine := ins, [ins] + ts;
    }

    method LinkHead(ins: Task)
      requires Linked(head, spine) && ins !in spine && (spine == [] ==> ins.nxt == null)
      modifies this`head, this`spine, ins`nxt
      ensures Linked(head, spine) && spine == [ins] + old(spine)
      ensures Entries() == [Entry(ins, ins.tout)] + old(Entries())
    {
      hide Linked;
      StoreHead(ins);
    }

    /** `ins` between the task at `k` and its successor: the link stores. */
    method StoreAfter(prv: Task, ghost k: nat, ins: Task)
      requires Linked(head, spine) && ins !in spine && k < |spine| && prv == spine[k]
      modifies this`spine, prv`nxt, ins`nxt
      ensures Linked(head, spine) && spine == old(spine[..k + 1] + [ins] + spine[k + 1..])
    {
      hide NoRepeat;
      ghost var ts := spine;
      ins.nxt := prv.nxt;
      prv.nxt := ins;
      ghost var us := ts[..k + 1] + [ins] + ts[k + 1..];
      SplicedAt(ts, k + 1, ins);
      spine := us;
    }

    method LinkAfter(prv: Task, ghost k: nat, ins: Task)
      requires Linked(head, spine) && ins !in spine && k < |spine| && prv == spine[k]
      modifies this`spine, prv`nxt, ins`nxt
      ensures Linked(head, spine) && spine == old(spine[..k + 1] + [ins] + spine[k + 1..])
      ensures Entries() == old(Entries()[..k + 1]) + [Entry(ins, ins.tout)] + old(Entries()[k + 1..])
    {
      hide Linked;
      StoreAfter(prv, k, ins);
    }

    method UnlinkHead()
      requires Linked(head, spine) && head != null
      modifies this`head, this`spine
      ensures Linked(head, spine) && spine == old(spine[1..]) && Entries() == old(Entries()[1..])
    {
      ghost var ts := spine;
      head, spine := head.nxt, ts[1..];
    }

    method StorePast(prv: Task, ghost k: nat, cnd: Task)
      requires Linked(head, spine) && 1 <= k < |spine| && prv == spine[k - 1] && cnd == spine[k]
      modifies this`spine, prv`nxt
      ensures Linked(head, spine) && spine == old(spine[..k] + spine[k + 1..])
    {
      ghost var ts := spine;
      prv.nxt := cnd.nxt;
      spine := ts[..k] + ts[k + 1..];
    }

    method UnlinkAfter(prv: Task, ghost k: nat, cnd: Task)
      requires Linked(head, spine) && 1 <= k < |spine| && prv == spine[k - 1] && cnd == spine[k]
      modifies this`spine, prv`nxt
      ensures Linked(head, spine) && spine == old(spine[..k] + spine[k + 1..])
      ensures Entries() == old(Entries()[..k] + Entries()[k + 1..])
    {
      hide Linked;
      StorePast(prv, k, cnd);
    }

    /** Clearing the link of a task that is not in the list. */
    method Detach(cnd: Task)
      requires Linked(head, spine) && cnd !in spine
      modifies cnd`nxt
      ensures Linked(head, spine) && cnd.nxt == null && Entries() == old(Entries())
    {
      cnd.nxt := null;
    }

    // ---- Insert and remove ----

    /** The walk of t_ael_tsk_insert: the last task with a smaller delay. */
    method SeekSlot(due: nat) returns (prv: Task, ghost k: nat)
      requires Linked(head, spine) && spine != [] && spine[0].tout < due
      ensures k < |spine| && prv == spine[k]
      ensures forall i | 0 <= i <= k :: spine[i].tout < due
      ensures k + 1 < |spine| ==> spine[k + 1].tout >= due
    {
      hide NoRepeat;
      prv, k := head, 0;
      while prv.nxt != null
        invariant 0 <= k < |spine| && prv == spine[k]
        invariant prv.nxt == At(spine, k + 1)
        invariant forall i | 0 <= i <= k :: spine[i].tout < due
        decreases |spine| - k
      {
        if prv.nxt.tout >= due {
          break;
        }
        prv, k := prv.nxt, k + 1;
      }
    }

    lemma HeadIsFirst()
      requires Linked(head, spine)
      ensures head == At(spine, 0)
    {
    }

    lemma SecondIsNext()
      requires Linked(head, spine) && head != null
      ensures head.nxt == At(spine, 1)
    {
    }

    /** t_ael_tsk_insert */
    method InsertTask(ins: Task)
      requires Valid() && ins !in spine && (spine == [] ==> ins.nxt == null)
      modifies this`head, this`tout, this`spine, spine`nxt, ins`nxt
      ensures Valid()
      ensures Abstract() == Add(old(Abstract()), Entry(ins, ins.tout))
      ensures forall t | t in spine :: t == ins || t in old(spine)
    {
      hide Insert, Sorted, Linked, CacheSound, Entries;
      ghost var was, e := Entries(), Entry(ins, ins.tout);
      InsertSorted(was, e);
      StepCache(Abstract(), Event.AddTask(ins, ins.tout));
      HeadIsFirst();
      if head == null || head.tout >= ins.tout {
        InsertPlaces(was, e, 0);
        LinkHead(ins);
        tout := ins.tout;
      } else {
        var prv: Task;
        ghost var k: nat;
        prv, k := SeekSlot(ins.tout);
        InsertPlaces(was, e, k + 1);
        LinkAfter(prv, k, ins);
      }
      assert Entries() == Insert(was, e);
    }

    lemma EntriesDistinct()
      requires Linked(head, spine)
      ensures Distinct(Entries())
    {
    }

    lemma NoEntryNoTask(t: Task)
      requires forall x | x in Entries() :: x.key != t
      ensures t !in spine
    {
      forall i | 0 <= i < |spine|
        ensures spine[i] != t
      {
        assert Entries()[i] in Entries();
      }
    }

    /** The walk of t_ael_tsk_remove past the head; `k` is the candidate's place, or the end. */
    method SeekTask(cnd: Task) returns (prv: Task, nxt: Task?, ghost k: nat)
      requires Linked(head, spine) && spine != [] && spine[0] != cnd
      ensures 1 <= k <= |spine| && prv == spine[k - 1]
      ensures forall i | 0 <= i < k :: spine[i] != cnd
      ensures if k < |spine| then nxt == spine[k] == cnd else nxt == null
    {
      hide NoRepeat;
      prv, nxt, k := head, head.nxt, 1;
      while nxt != null
        invariant 1 <= k <= |spine| && prv == spine[k - 1]
        invariant nxt == At(spine, k)
        invariant forall i | 0 <= i < k :: spine[i] != cnd
        decreases |spine| - k
      {
        if cnd == nxt {
          break;
        }
        prv, nxt, k := nxt, nxt.nxt, k + 1;
      }
    }

    /** The pointer part of t_ael_tsk_remove; `k` is the candidate's place, or the end of the list. */
    method UnlinkTask(cnd: Task) returns (ghost k: nat)
      requires Linked(head, spine)
      modifies this`head, this`tout, this`spine, spine`nxt
      ensures Linked(head, spine) && k <= |old(spine)|
      ensures forall i | 0 <= i < k :: old(spine)[i] != cnd
      ensures k < |old(spine)| ==> old(spine)[k] == cnd
      ensures spine == if k < |old(spine)| then old(spine)[..k] + old(spine)[k + 1..] else old(spine)
      ensures tout == if k > 0 || old(spine) == [] then old(tout)
                      else if |old(spine)| == 1 then NO_TIMEOUT else old(spine)[1].tout
      ensures Entries() == if k < |old(spine)| then old(Entries()[..k]) + old(Entries()[k + 1..]) else old(Entries())
      ensures cnd !in old(spine) ==> spine == old(spine) && tout == old(tout)
    {
      hide Linked;
      HeadIsFirst();
      k := 0;
      if head == null {
      } else if cnd == head {
        SecondIsNext();
        tout := if head.nxt == null then NO_TIMEOUT else head.nxt.tout;
        UnlinkHead();
      } else {
        var prv: Task, nxt: Task?;
        prv, nxt, k := SeekTask(cnd);
        if nxt != null {
          UnlinkAfter(prv, k, nxt);
        }
      }
    }

    /** t_ael_tsk_remove */
    method RemoveTask(cnd: Task)
      requires Valid()
      modifies this`head, this`tout, this`spine, spine`nxt, cnd`nxt
      ensures Valid() && cnd.nxt == null && cnd !in spine
      ensures Abstract() == Cancel(old(Abstract()), cnd)
      ensures forall t | t in spine :: t in old(spine)
      ensures cnd !in old(spine) ==> spine == old(spine) && tout == old(tout)
    {
      hide Remove, Cancel, Sorted, Distinct, Linked, CacheSound, Entries;
      ghost var was := Entries();
      StepCache(Abstract(), Event.CancelTask(cnd));
      EntriesDistinct();
      ghost var k := UnlinkTask(cnd);
      CancelAt(old(Abstract()), cnd, k);
      assert Entries() == Remove(was, cnd) by {
        RemovePlaces(was, cnd, k);
      }
      assert Sorted(Entries()) by {
        RemoveOrder(was, cnd);
      }
      assert cnd !in spine by {
        RemoveMembers(was, cnd);
        NoEntryNoTask(cnd);
      }
      Detach(cnd);
    }

    // ---- The operations of the loop ----

    /** lt_ael_addtask: a task of its own for every call. */
    method AddTask(ms: nat) returns (tsk: Task)
      requires Valid()
      modifies this`head, this`tout, this`spine, spine`nxt
      ensures Valid() && fresh(tsk) && tsk.tout == ms
      ensures Abstract() == Add(old(Abstract()), Entry(tsk, ms))
      ensures forall t | t in spine :: t == tsk || t in old(spine)
    {
      tsk := new Task(ms);
      InsertTask(tsk);
    }

    /** lt_ael_canceltask */
    method CancelTask(tsk: Task)
      requires Valid()
      modifies this`head, this`tout, this`spine, spine`nxt, tsk`nxt
      ensures Valid() && tsk !in spine
      ensures Abstract() == Cancel(old(Abstract()), tsk)
      ensures forall t | t in spine :: t in old(spine)
    {
      RemoveTask(tsk);
    }

    /** The timer part of lt_ael_clean. */
    method CleanTasks()
      modifies this`head, this`tout, this`spine
      ensures Valid() && Abstract() == State([], NO_TIMEOUT)
    {
      head, tout, spine := null, NO_TIMEOUT, [];
    }

    /** t_ael_tsk_adjust: `tout` of the loop stays as it is. */
    method AdjustTasks(et: nat)
      requires Valid()
      modifies spine`tout
      ensures Valid()
      ensures Abstract() == State(Adjust(old(Entries()), et), tout)
    {
      hide Adjust, Sorted, CacheSound, HeadDue;
      ghost var was := Entries();
      AdjustedIsValid(Abstract(), et);
      var run := head;
      ghost var k := 0;
      while run != null
        invariant k <= |spine| && run == At(spine, k) && Linked(head, spine)
        invariant forall i | 0 <= i < |spine| :: spine[i].tout == if i < k then Less(was[i].due, et) else was[i].due
        decreases |spine| - k
      {
        run.tout := if run.tout - et > 0 then run.tout - et else 0;
        run, k := run.nxt, k + 1;
      }
      AdjustAt(was, et);
      assert Entries() == Adjust(was, et);
    }

    /** t_ael_tsk_execute for a head whose callback has answered `ms`. */
    method ExecuteTask(tsk: Task, ms: int)
      requires Valid() && tsk in spine
      modifies this`head, this`tout, this`spine, spine`nxt, tsk`tout
      ensures Valid()
      ensures Abstract() == Execute(old(Abstract()), tsk, ms)
      ensures forall t | t in spine :: t in old(spine)
    {
      hide Valid, Add, Cancel, Linked;
      RemoveTask(tsk);
      if ms >= 1 {
        SetDelay(tsk, ms);
        assert forall i | 0 <= i < |spine| :: spine[i] in old(spine);
        InsertTask(tsk);
      }
    }

    /** tsk->tout = ms, for a task outside the list. */
    method SetDelay(tsk: Task, ms: nat)
      requires Valid() && tsk !in spine
      modifies tsk`tout
      ensures Valid() && tsk.tout == ms && Abstract() == old(Abstract())
    {
      hide Sorted, CacheSound;
      tsk.tout := ms;
      assert Entries() == old(Entries());
    }

    /** Runs the head, which is due: one turn of the loop in t_ael_tsk_process. */
    method RunHead(cb: Task -> int) returns (tsk: Task)
      requires Valid() && head != null && head.tout < 1
      modifies this`head, this`tout, this`spine, spine
      ensures Valid()
      ensures RunDue(old(Abstract()), cb) == Outcome([tsk] + RunDue(Abstract(), cb).ran, RunDue(Abstract(), cb).state)
      ensures DueBy(Entries(), 0) < old(DueBy(Entries(), 0))
      ensures forall t | t in spine :: t in old(spine)
    {
      hide RunDue, Execute, Sorted, CacheSound, Linked, DueBy;
      HeadIsFirst();
      tsk := head;
      ExecuteShrinks(Abstract(), cb(tsk));
      RunDueTurn(Abstract(), cb);
      ExecuteTask(tsk, cb(tsk));
    }

    /** The loop of t_ael_tsk_process. */
    method RunHeads(cb: Task -> int) returns (ran: seq<Task>)
      requires Valid()
      modifies this`head, this`tout, this`spine, spine
      ensures Valid()
      ensures Outcome(ran, Abstract()) == RunDue(old(Abstract()), cb)
      ensures forall t | t in spine :: t in old(spine)
    {
      hide RunDue, Valid, DueBy, Abstract;
      ghost var all := RunDue(Abstract(), cb);
      ran := [];
      while head != null
        invariant Valid() && forall t | t in spine :: t in old(spine)
        invariant all.ran == ran + RunDue(Abstract(), cb).ran && all.state == RunDue(Abstract(), cb).state
        decreases DueBy(Entries(), 0)
      {
        if head.tout >= 1 {
          break;
        }
        assert forall i | 0 <= i < |spine| :: spine[i] in old(spine);
        var tsk := RunHead(cb);
        ran := ran + [tsk];
      }
      NothingDue(cb);
    }

    /** t_ael_tsk_process; `cb` answers for the callbacks and `ran` records their calls. */
    method ProcessTasks(et: nat, cb: Task -> int) returns (ran: seq<Task>)
      requires Valid()
      modifies this`head, this`tout, this`spine, spine
      ensures Valid()
      ensures ran == Pass(old(Abstract()), et, cb).ran
      ensures Abstract() == Pass(old(Abstract()), et, cb).state
      ensures forall t | t in spine :: t in old(spine)
    {
      hide RunDue, Adjust, Valid;
      AdjustTasks(et);
      ran := RunHeads(cb);
    }

    lemma NothingDue(cb: Task -> int)
      requires Valid() && (head == null || head.tout >= 1)
      ensures RunDue(Abstract(), cb) == Outcome([], Abstract())
    {
      hide Sorted, CacheSound;
      HeadIsFirst();
    }

    /**
      * The end of one turn of lt_ael_run: a pass, then the test whether anything is left to wait for.
      * The test on the cached `tout` is exact.
      */
    method Turn(et: nat, cb: Task -> int) returns (ran: seq<Task>)
      requires Valid()
      modifies this`head, this`tout, this`spine, this`run, spine
      ensures Valid()
      ensures ran == Pass(old(Abstract()), et, cb).ran
      ensures Abstract() == Pass(old(Abstract()), et, cb).state
      ensures run == (old(run) && (Abstract().tasks != [] || fdCount > 0))
    {
      hide Pass, Sorted, Linked;
      ran := ProcessTasks(et, cb);
      run := if tout == NO_TIMEOUT && fdCount < 1 then false else run;
    }
  }

  lemma AdjustedIsValid(l: State<Task>, et: nat)
    requires Sorted(l.tasks) && CacheSound(l)
    ensures Sorted(Adjust(l.tasks, et)) && CacheSound(State(Adjust(l.tasks, et), l.tout))
  {
    hide Adjust;
    AdjustAt(l.tasks, et);
  }

  // ---- Whole runs on the heap ----

  /** A call on the loop; a task is named by its number in the order of creation. */
  datatype Act = AddAct(ms: nat) | CancelAct(which: nat) | PassAct(et: nat, cb: Task -> int) | CleanAct

  function Adds(acts: seq<Act>): nat {
    if acts == [] then 0 else Adds(acts[..|acts| - 1]) + if acts[|acts| - 1].AddAct? then 1 else 0
  }

  /** `events` are the calls with the tasks they were about. */
  ghost predicate Follows(acts: seq<Act>, events: seq<Event<Task>>, created: seq<Task>)
    decreases |acts|
  {
    && |events| == |acts|
    && if acts == [] then created == []
       else
         var n := |acts| - 1;
         match acts[n]
         case AddAct(ms) =>
           && created != [] && events[n] == Event.AddTask(created[|created| - 1], ms)
           && Follows(acts[..n], events[..n], created[..|created| - 1])
         case CancelAct(k) =>
           k < |created| && events[n] == Event.CancelTask(created[k]) && Follows(acts[..n], events[..n], created)
         case PassAct(et, cb) => events[n] == Event.Process(et, cb) && Follows(acts[..n], events[..n], created)
         case CleanAct => events[n] == Event.Clean && Follows(acts[..n], events[..n], created)
  }

  /** Only tasks that have been created are cancelled. */
  ghost predicate WellNumbered(acts: seq<Act>) {
    forall i | 0 <= i < |acts| && acts[i].CancelAct? :: acts[i].which < Adds(acts[..i])
  }

  /** Everything known of a run so far. */
  ghost predicate IsRun(acts: seq<Act>, events: seq<Event<Task>>, created: seq<Task>,
                        log: seq<seq<Task>>, l: State<Task>) {
    && Follows(acts, events, created) && |created| == Adds(acts)
    && AdmissibleRun(State([], NO_TIMEOUT), events) && Run(State([], NO_TIMEOUT), events) == (log, l)
  }

  lemma RunGoesOn(acts: seq<Act>, act: Act, events: seq<Event<Task>>, ev: Event<Task>,
                  created: seq<Task>, more: seq<Task>, log: seq<seq<Task>>, l: State<Task>)
    requires IsRun(acts, events, created, log, l) && Admissible(l, ev)
    requires match act
             case AddAct(ms) => |more| == 1 && ev == Event.AddTask(more[0], ms)
             case CancelAct(k) => more == [] && k < |created| && ev == Event.CancelTask(created[k])
             case PassAct(et, cb) => more == [] && ev == Event.Process(et, cb)
             case CleanAct => more == [] && ev == Event.Clean
    ensures IsRun(acts + [act], events + [ev], created + more, log + [Step(l, ev).ran], Step(l, ev).state)
  {
    hide Step, Admissible, AdmissibleRun, Run;
    RunSnoc(State([], NO_TIMEOUT), map[], events, ev);
    assert (acts + [act])[..|acts|] == acts && (events + [ev])[..|events|] == events;
    assert (created + more)[..|created|] == created && created + [] == created;
  }

  lemma EmptyRun()
    ensures IsRun([], [], [], [], State([], NO_TIMEOUT))
  {
  }

  lemma RunIsRefined(acts: seq<Act>, events: seq<Event<Task>>, created: seq<Task>, log: seq<seq<Task>>, l: State<Task>)
    requires IsRun(acts, events, created, log, l)
    ensures Refines(l.tasks, LedgerRun(map[], events))
  {
    hide Run, AdmissibleRun, LedgerRun;
    var empty: State<Task> := State([], NO_TIMEOUT);
    assert Refines<Task>([], map[]);
    RunRefines(empty, map[], events, 0);
  }

  /** One call. */
  method Perform(loop: Loop, act: Act, created: seq<Task>)
    returns (more: seq<Task>, ran: seq<Task>, ghost ev: Event<Task>)
    requires loop.Valid() && (act.CancelAct? ==> act.which < |created|)
    modifies loop, loop.spine, created
    ensures loop.Valid() && Admissible(old(loop.Abstract()), ev)
    ensures ran == Step(old(loop.Abstract()), ev).ran && loop.Abstract() == Step(old(loop.Abstract()), ev).state
    ensures match act
            case AddAct(ms) => |more| == 1 && fresh(more[0]) && ev == Event.AddTask(more[0], ms)
            case CancelAct(k) => more == [] && ev == Event.CancelTask(created[k])
            case PassAct(et, cb) => more == [] && ev == Event.Process(et, cb)
            case CleanAct => more == [] && ev == Event.Clean
    ensures forall t | t in loop.spine :: t in more || t in old(loop.spine)
  {
    hide Add, Cancel, Pass, Sorted, CacheSound, Linked;
    more, ran := [], [];
    match act {
      case AddAct(ms) =>
        var tsk := loop.AddTask(ms);
        more, ev := [tsk], Event.AddTask(tsk, ms);
      case CancelAct(k) =>
        loop.CancelTask(created[k]);
        ev := Event.CancelTask(created[k]);
      case PassAct(et, cb) =>
        ran := loop.ProcessTasks(et, cb);
        ev := Event.Process(et, cb);
      case CleanAct =>
        loop.CleanTasks();
        ev := Event.Clean;
    }
  }

  /** Any sequence of calls on a new loop is a run of the list functions and agrees with the ledger. */
  method Replay(acts: seq<Act>)
    returns (loop: Loop, created: seq<Task>, log: seq<seq<Task>>, ghost events: seq<Event<Task>>)
    requires WellNumbered(acts)
    ensures loop.Valid() && IsRun(acts, events, created, log, loop.Abstract())
    ensures Refines(loop.Entries(), LedgerRun(map[], events))
  {
    hide Step, Run, AdmissibleRun, Refines, LedgerRun, Follows, Sorted, CacheSound, Linked;
    loop := new Loop();
    created, log, events := [], [], [];
    EmptyRun();
    for i := 0 to |acts|
      invariant fresh(loop) && loop.Valid()
      invariant forall j | 0 <= j < |loop.spine| :: fresh(loop.spine[j])
      invariant forall j | 0 <= j < |created| :: fresh(created[j])
      invariant IsRun(acts[..i], events, created, log, loop.Abstract())
    {
      assert acts[..i + 1] == acts[..i] + [acts[i]];
      label Before:
      var more: seq<Task>, ran: seq<Task>;
      ghost var ev;
      ghost var before := loop.spine;
      more, ran, ev := Perform(loop, acts[i], created);
      forall j | 0 <= j < |loop.spine|
        ensures fresh(loop.spine[j])
      {
        assert loop.spine[j] in loop.spine;
        assert loop.spine[j] in more || exists k :: 0 <= k < |before| && before[k] == loop.spine[j];
      }
      RunGoesOn(acts[..i], acts[i], events, ev, created, more, log, old@Before(loop.Abstract()));
      created, log, events := created + more, log + [ran], events + [ev];
    }
    assert acts[..|acts|] == acts;
    RunIsRefined(acts, events, created, log, loop.Abstract());
  }
}
