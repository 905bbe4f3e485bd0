/** The epoll back end of the event loop: the interest list lives in the kernel. */
module Epoll {
  import opened Interest
  import Select

  datatype Ctl = CtlAdd | CtlMod | CtlDel

  /** How a call on the loop ended; `Raised` is a Lua error out of a failed epoll_ctl. */
  datatype Ending = Done | NotObserved | Raised

  /** epoll_ctl: EEXIST, ENOENT, or a refusal of the kernel's own (EPERM, ENOMEM, ENOSPC) that DEL does not know. */
  predicate CtlAccepts(kernel: Watch, op: Ctl, fd: nat, refuses: bool) {
    match op
    case CtlAdd => fd !in kernel && !refuses
    case CtlMod => fd in kernel && !refuses
    case CtlDel => fd in kernel
  }

  /** The descriptors the kernel has to watch. */
  ghost function Watched(w: Watch): Watch {
    map fd | fd in w && w[fd] != NO :: w[fd]
  }

  /** What epoll_wait reports for a descriptor; errors and hang-ups come unasked. */
  datatype Report = Report(fd: nat, inn: bool, out: bool, err: bool, hup: bool)

  function ReportMask(e: Report): Mask {
    Mask(e.inn, e.out || e.err || e.hup)
  }

  /** The kernel reports watched descriptors, and only what was asked for or has gone wrong. */
  ghost predicate Reportable(kernel: Watch, e: Report) {
    && e.fd in kernel && (e.inn || e.out || e.err || e.hup)
    && (e.inn ==> kernel[e.fd].rd) && (e.out ==> kernel[e.fd].wr)
  }

  /** The callbacks for the reports, in their order. */
  function Served(nodes: Watch, events: seq<Report>): seq<Select.Fired> {
    if events == [] then []
    else
      var n := |events| - 1;
      Served(nodes, events[..n]) + Select.Calls(events[n].fd, MaskOf(nodes, events[n].fd), ReportMask(events[n]))
  }

  /** One report runs reading if there is something to read, else writing if the node asks for it, else nothing. */
  lemma ServedOne(nodes: Watch, e: Report)
    requires Reportable(Watched(nodes), e)
    ensures Served(nodes, [e]) == if e.inn then [Select.Fired(e.fd, true)]
                                  else if nodes[e.fd].wr then [Select.Fired(e.fd, false)]
                                  else []
  {
    assert [e][..0] == [] && Served(nodes, []) == [];
  }

  lemma {:induction false} ServedConcat(nodes: Watch, a: seq<Report>, b: seq<Report>)
    ensures Served(nodes, a + b) == Served(nodes, a) + Served(nodes, b)
    decreases |b|
  {
    if b == [] {
      assert a + b == a;
    } else {
      assert (a + b)[..|a + b| - 1] == a + b[..|b| - 1];
      ServedConcat(nodes, a, b[..|b| - 1]);
    }
  }

  /** What one report is to give rise to: reading before writing, and nothing the node does not ask for. */
  ghost predicate Answered(nodes: Watch, e: Report, part: seq<Select.Fired>) {
    && e.fd in nodes
    && (e.inn ==> part == [Select.Fired(e.fd, true)])
    && (!e.inn && nodes[e.fd].wr ==> part == [Select.Fired(e.fd, false)])
    && (!e.inn && !nodes[e.fd].wr ==> part == [])
  }

  function Flat(parts: seq<seq<Select.Fired>>): seq<Select.Fired> {
    if parts == [] then [] else Flat(parts[..|parts| - 1]) + parts[|parts| - 1]
  }

  /** The log in parts, one for each report in their order. */
  ghost predicate Attributed(nodes: Watch, events: seq<Report>, log: seq<Select.Fired>, parts: seq<seq<Select.Fired>>) {
    && |parts| == |events| && log == Flat(parts)
    && forall i | 0 <= i < |events| :: Answered(nodes, events[i], parts[i])
  }

  lemma {:induction false} ServedAttributed(nodes: Watch, events: seq<Report>)
    returns (parts: seq<seq<Select.Fired>>)
    requires forall e | e in events :: Reportable(Watched(nodes), e)
    ensures Attributed(nodes, events, Served(nodes, events), parts)
  {
    hide Watched, Reportable, Answered;
    parts := [];
    if events != [] {
      var n := |events| - 1;
      var init, e := events[..n], events[n];
      parts := ServedAttributed(nodes, init);
      assert e in events && init + [e] == events;
      ServedAnswered(nodes, e);
      ServedConcat(nodes, init, [e]);
      parts := parts + [Served(nodes, [e])];
      assert parts[..n] == parts[..|parts| - 1];
    }
  }

  lemma ServedAnswered(nodes: Watch, e: Report)
    requires Reportable(Watched(nodes), e)
    ensures Answered(nodes, e, Served(nodes, [e]))
  {
    hide Served;
    ServedOne(nodes, e);
  }

  /** A report goes unserved, whatever it says, if and only if it has nothing to read and its node does not write. */
  lemma {:induction false} ServedAllIff(nodes: Watch, events: seq<Report>)
    requires forall e | e in events :: Reportable(Watched(nodes), e)
    ensures |Served(nodes, events)| <= |events|
    ensures |Served(nodes, events)| == |events| <==> forall e | e in events :: e.inn || MaskOf(nodes, e.fd).wr
  {
    if events != [] {
      var n := |events| - 1;
      assert events == events[..n] + [events[n]];
      ServedAllIff(nodes, events[..n]);
      assert Reportable(Watched(nodes), events[n]);
    }
  }

  /** An error on a descriptor that is only read runs nothing. */
  lemma ErrorUnserved()
    ensures var nodes, e := map[5 := Mask(true, false)], Report(5, false, false, true, false);
            Reportable(Watched(nodes), e) && Served(nodes, [e]) == []
  {
    var e := Report(5, false, false, true, false);
    assert [e][..0] == [];
  }

  class Loop {
    var nodes: Watch
    var fdCount: int
    /** The interest list behind epfd. */
    var kernel: Watch

    constructor ()
      ensures Valid() && nodes == map[]
    {
      nodes, fdCount, kernel := map[], 0, map[];
    }

    /** The kernel watches exactly the nodes with a direction, with that mask as their events. */
    ghost predicate Valid()
      reads this
    {
      fdCount == |nodes| && kernel == Watched(nodes)
    }

    /** A node that a refused ADD left behind. */
    ghost predicate Stuck(fd: nat)
      reads this
    {
      fd in nodes && nodes[fd] == NO
    }

    method EpollCtl(op: Ctl, fd: nat, events: Mask, refuses: bool) returns (ok: bool)
      modifies this`kernel
      ensures ok == CtlAccepts(old(kernel), op, fd, refuses)
      ensures kernel == if !ok then old(kernel)
                        else if op.CtlDel? then old(kernel) - {fd} else old(kernel)[fd := events]
    {
      ok := CtlAccepts(kernel, op, fd, refuses);
      if ok {
        kernel := if op.CtlDel? then kernel - {fd} else kernel[fd := events];
      }
    }

    /** p_ael_addhandle_impl: ADD for a descriptor the kernel does not know, MOD for one it knows. */
    method AddImpl(fd: nat, dnd: Mask, addmsk: Mask, refuses: bool) returns (ok: bool)
      requires Valid() && fd in nodes && nodes[fd] == dnd
      modifies this`kernel
      ensures ok == !refuses
      ensures kernel == if ok then old(kernel)[fd := Union(addmsk, dnd)] else old(kernel)
    {
      var events := Union(addmsk, dnd);
      var op := if dnd == NO then CtlAdd else CtlMod;
      ok := EpollCtl(op, fd, events, refuses);
    }

    /** lt_ael_addhandle: the node is made first, and an error leaves it there. */
    method AddHandle(fd: nat, msk: Mask, refuses: bool) returns (end: Ending)
      requires Valid() && msk != NO
      modifies this
      ensures Valid()
      ensures end == if refuses then Raised else Done
      ensures !refuses ==> nodes == OpStep(old(nodes), AddOp(fd, msk))
      ensures refuses ==> nodes == if fd in old(nodes) then old(nodes) else old(nodes)[fd := NO]
    {
      hide Watched;
      if fd !in nodes {
        WatchedSet(nodes, fd, NO);
        nodes := nodes[fd := NO];
        fdCount := fdCount + 1;
      }
      var dnd := nodes[fd];
      var ok := AddImpl(fd, dnd, msk, refuses);
      if !ok {
        return Raised;
      }
      WatchedSet(nodes, fd, Union(dnd, msk));
      nodes := nodes[fd := Union(dnd, msk)];
      return Done;
    }

    /** p_ael_removehandle_impl: DEL or MOD, which the kernel accepts unless the node is stuck. */
    method RemoveImpl(fd: nat, dnd: Mask, delmsk: Mask, refuses: bool) returns (ok: bool)
      requires Valid() && fd in nodes && nodes[fd] == dnd
      modifies this`kernel
      ensures ok <==> dnd != NO && (Minus(dnd, delmsk) != NO ==> !refuses)
      ensures kernel == if !ok then old(kernel)
                        else if Minus(dnd, delmsk) == NO then old(kernel) - {fd}
                        else old(kernel)[fd := Minus(dnd, delmsk)]
    {
      var left := Minus(dnd, delmsk);
      ok := EpollCtl(if left != NO then CtlMod else CtlDel, fd, left, refuses);
    }

    /** lt_ael_removehandle */
    method RemoveHandle(fd: nat, msk: Mask, refuses: bool) returns (end: Ending)
      requires Valid() && msk != NO
      modifies this
      ensures Valid()
      ensures end == if fd !in old(nodes) then NotObserved
                     else if old(Stuck(fd)) || (refuses && Minus(old(nodes)[fd], msk) != NO) then Raised else Done
      ensures nodes == if end == Raised then old(nodes) else OpStep(old(nodes), RemoveOp(fd, msk))
    {
      hide Watched;
      if fd !in nodes {
        return NotObserved;
      }
      var dnd := nodes[fd];
      var ok := RemoveImpl(fd, dnd, msk, refuses);
      if !ok {
        return Raised;
      }
      WatchedSet(nodes, fd, Minus(dnd, msk));
      nodes := nodes[fd := Minus(dnd, msk)];
      if nodes[fd] == NO {
        WatchedDrop(nodes, fd);
        nodes := nodes - {fd};
        fdCount := fdCount - 1;
      }
      return Done;
    }

    /**
      * The descriptor part of lt_ael_clean; `gone` are the nodes it took away, in the order of the table walk.
      * It gets through if and only if no node is stuck.
      */
    method Clean() returns (end: Ending, gone: seq<nat>)
      requires Valid()
      modifies this
      ensures Valid()
      ensures end == if forall fd | fd in old(nodes) :: old(nodes)[fd] != NO then Done else Raised
      ensures nodes == old(nodes) - Members(gone)
      ensures forall fd | fd in gone :: fd in old(nodes) && old(nodes)[fd] != NO
      ensures end == Done ==> nodes == map[] && fdCount == 0 && kernel == map[]
    {
      hide Watched, Walked;
      gone := [];
      WalkStart(nodes);
      while nodes.Keys != {}
        invariant Valid() && Walked(old(nodes), gone, nodes)
        decreases |nodes.Keys|
      {
        var fd :| fd in nodes.Keys;
        ghost var before := nodes;
        var ok := CleanNode(fd);
        if !ok {
          WalkEnd(old(nodes), gone, nodes);
          return Raised, gone;
        }
        WalkStep(old(nodes), gone, before, fd);
        gone := gone + [fd];
      }
      WatchedNothing();
      WalkEnd(old(nodes), gone, nodes);
      return Done, gone;
    }

    /** One node of the walk; it is freed unless the kernel does not know its descriptor. */
    method CleanNode(fd: nat) returns (ok: bool)
      requires Valid() && fd in nodes
      modifies this
      ensures Valid() && ok == (old(nodes)[fd] != NO)
      ensures nodes == if ok then old(nodes) - {fd} else old(nodes)
    {
      hide Watched;
      ok := RemoveImpl(fd, nodes[fd], RW, false);
      if ok {
        WatchedDrop(nodes, fd);
        nodes := nodes - {fd};
        fdCount := fdCount - 1;
      }
    }

    /**
      * The dispatch loop of p_ael_poll_impl for the reports of one epoll_wait; `c` counts the reports, and `parts`
      * are the pieces of the log that each one gives rise to.
      */
    method Dispatch(events: seq<Report>) returns (log: seq<Select.Fired>, c: nat, ghost parts: seq<seq<Select.Fired>>)
      requires Valid() && forall e | e in events :: Reportable(kernel, e)
      ensures log == Served(nodes, events) && c == |events|
      ensures Attributed(nodes, events, log, parts)
    {
      hide Watched, Attributed;
      log, c := [], 0;
      for i := 0 to |events|
        invariant log == Served(nodes, events[..i]) && c == i
      {
        assert events[..i + 1][..i] == events[..i];
        var e := events[i];
        assert e in events;
        WatchedSet(nodes, e.fd, NO);
        var msk := NO;
        if e.inn {
          msk := Union(msk, Mask(true, false));
        }
        if e.out || e.err || e.hup {
          msk := Union(msk, Mask(false, true));
        }
        if msk != NO {
          var calls := Select.Execute(e.fd, nodes[e.fd], msk);
          log := log + calls;
          c := c + 1;
        }
      }
      assert events[..|events|] == events;
      parts := ServedAttributed(nodes, events);
    }

    /** Any sequence of calls that the kernel does not refuse: every epoll_ctl succeeds. */
    method Replay(ops: seq<Op>) returns (ends: seq<Ending>)
      requires Valid() && nodes == map[] && forall i | 0 <= i < |ops| :: ops[i].CleanOp? || ops[i].msk != NO
      modifies this
      ensures Valid() && nodes == OpRun(map[], ops) && Raised !in ends
      ensures kernel == OpRun(map[], ops)
    {
      ends := [];
      for i := 0 to |ops|
        invariant Valid() && nodes == OpRun(map[], ops[..i]) && Raised !in ends
        invariant forall fd | fd in nodes :: nodes[fd] != NO
      {
        assert ops[..i + 1][..i] == ops[..i];
        var end;
        match ops[i] {
          case AddOp(fd, msk) => end := AddHandle(fd, msk, false);
          case RemoveOp(fd, msk) => end := RemoveHandle(fd, msk, false);
          case CleanOp =>
            var gone;
            end, gone := Clean();
        }
        ends := ends + [end];
      }
      assert ops[..|ops|] == ops;
    }

    /** One call of whatever kind. */
    method Perform(op: Op, refuses: bool) returns (c: Call)
      requires Valid() && (!op.CleanOp? ==> op.msk != NO)
      modifies this
      ensures Valid() && c.op == op && Answers(old(nodes), c, refuses) && nodes == TableStep(old(nodes), c)
      ensures forall fd | fd in c.gone :: fd in old(nodes) && old(nodes)[fd] != NO
    {
      hide Watched, OpStep;
      match op {
        case AddOp(fd, msk) =>
          var end := AddHandle(fd, msk, refuses);
          c := Call(op, end, []);
        case RemoveOp(fd, msk) =>
          var end := RemoveHandle(fd, msk, refuses);
          c := Call(op, end, []);
        case CleanOp =>
          var end, gone := Clean();
          c := Call(op, end, gone);
          CleanStep(old(nodes));
      }
    }

    /**
      * Any sequence of calls while the kernel refuses at will: it watches what the calls that did not raise
      * say, less what a clean took away before it raised; and which nodes are stuck, hence which calls raise.
      */
    method ReplayRefused(ops: seq<Op>, refuses: seq<bool>) returns (calls: seq<Call>)
      requires Valid() && nodes == map[] && |refuses| == |ops|
      requires forall i | 0 <= i < |ops| :: ops[i].CleanOp? || ops[i].msk != NO
      modifies this
      ensures Valid() && |calls| == |ops| && forall i | 0 <= i < |ops| :: calls[i].op == ops[i]
      ensures kernel == WatchRun(calls)
      ensures forall fd :: Stuck(fd) <==> StuckBy(calls, fd)
      ensures forall i | 0 <= i < |ops| :: calls[i].end == EndingOf(calls[..i], ops[i], refuses[i])
    {
      hide Watched, Answers, TableStep, EndingOf, WatchRun, StuckBy;
      calls := [];
      NothingCalled();
      for i := 0 to |ops|
        invariant Valid() && |calls| == i && Mirrors(nodes, calls)
        invariant forall k | 0 <= k < i :: calls[k].op == ops[k]
        invariant forall k | 0 <= k < i :: calls[k].end == EndingOf(calls[..k], ops[k], refuses[k])
      {
        ghost var was := nodes;
        var c := Perform(ops[i], refuses[i]);
        EndingExplained(was, calls, c, refuses[i]);
        CallMirrored(was, calls, c, refuses[i]);
        assert forall k | 0 <= k <= i :: (calls + [c])[..k] == calls[..k];
        calls := calls + [c];
      }
    }
  }

  // ---- Runs with refusals ----

  /** A call, how it ended, and the nodes a clean took away before it ended. */
  datatype Call = Call(op: Op, end: Ending, gone: seq<nat>)

  ghost function Members(s: seq<nat>): set<nat> {
    set fd | fd in s
  }

  /** What a call means for the kernel: its abstract step, or what a failed clean got done. */
  ghost function Effect(w: Watch, c: Call): Watch {
    if c.end != Raised then OpStep(w, c.op) else if c.op.CleanOp? then w - Members(c.gone) else w
  }

  ghost function WatchRun(calls: seq<Call>): Watch {
    if calls == [] then map[] else Effect(WatchRun(calls[..|calls| - 1]), calls[|calls| - 1])
  }

  /** The same for the node table, where a refused ADD leaves a node. */
  ghost function TableStep(w: Watch, c: Call): Watch {
    if c.end == Raised && c.op.AddOp? && c.op.fd !in w then w[c.op.fd := NO] else Effect(w, c)
  }

  /** How a call on a node table ends. */
  ghost predicate Answers(w: Watch, c: Call, refuses: bool) {
    c.end == match c.op
             case AddOp(_, _) => if refuses then Raised else Done
             case RemoveOp(fd, msk) =>
               if fd !in w then NotObserved
               else if w[fd] == NO || (refuses && Minus(w[fd], msk) != NO) then Raised else Done
             case CleanOp => if forall fd | fd in w :: w[fd] != NO then Done else Raised
  }

  predicate Accepted(c: Call, fd: nat) {
    c.op.AddOp? && c.op.fd == fd && c.end == Done
  }

  /** The call at `i` is a refused ADD of an unwatched descriptor, and none has been accepted since. */
  ghost predicate SticksFrom(calls: seq<Call>, fd: nat, i: nat)
    requires i < |calls|
  {
    && calls[i].op.AddOp? && calls[i].op.fd == fd && calls[i].end == Raised && fd !in WatchRun(calls[..i])
    && forall j | i < j < |calls| :: !Accepted(calls[j], fd)
  }

  ghost predicate StuckBy(calls: seq<Call>, fd: nat) {
    exists i: nat | i < |calls| :: SticksFrom(calls, fd, i)
  }

  /** How a call ends, from the calls before it alone. */
  ghost function EndingOf(before: seq<Call>, op: Op, refuses: bool): Ending {
    match op
    case AddOp(_, _) => if refuses then Raised else Done
    case RemoveOp(fd, msk) =>
      if StuckBy(before, fd) then Raised
      else if fd !in WatchRun(before) then NotObserved
      else if refuses && Minus(WatchRun(before)[fd], msk) != NO then Raised else Done
    case CleanOp => if exists fd :: StuckBy(before, fd) then Raised else Done
  }

  /** The node table is what the calls say. */
  ghost predicate Mirrors(w: Watch, calls: seq<Call>) {
    && Watched(w) == WatchRun(calls)
    && (forall fd :: (fd in w && w[fd] == NO) <==> StuckBy(calls, fd))
  }

  lemma NothingCalled()
    ensures Mirrors(map[], [])
  {
    WatchedNothing();
  }

  /** The walk over the table has taken the nodes in `gone`, all of them with a direction, and left `now`. */
  ghost predicate Walked(was: Watch, gone: seq<nat>, now: Watch) {
    now == was - Members(gone) && forall fd | fd in gone :: fd in was && was[fd] != NO
  }

  lemma WalkStart(was: Watch)
    ensures Walked(was, [], was)
  {
  }

  lemma WalkStep(was: Watch, gone: seq<nat>, now: Watch, fd: nat)
    requires Walked(was, gone, now) && fd in now && now[fd] != NO
    ensures Walked(was, gone + [fd], now - {fd})
  {
    assert Members(gone + [fd]) == Members(gone) + {fd};
  }

  lemma WalkEnd(was: Watch, gone: seq<nat>, now: Watch)
    requires Walked(was, gone, now)
    ensures now == was - Members(gone)
    ensures forall fd | fd in gone :: fd in was && was[fd] != NO
    ensures (forall fd | fd in now :: now[fd] != NO) <==> (forall fd | fd in was :: was[fd] != NO)
  {
    forall fd | fd in was && was[fd] == NO
      ensures fd in now && now[fd] == NO
    {
      assert fd !in Members(gone);
    }
  }

  lemma CleanStep(w: Watch)
    ensures OpStep(w, CleanOp) == map[]
  {
  }

  lemma SticksSnoc(calls: seq<Call>, c: Call, fd: nat, i: nat)
    requires i <= |calls|
    ensures i < |calls| ==> (SticksFrom(calls + [c], fd, i) <==> SticksFrom(calls, fd, i) && !Accepted(c, fd))
    ensures i == |calls| ==>
              (SticksFrom(calls + [c], fd, i)
               <==> c.op.AddOp? && c.op.fd == fd && c.end == Raised && fd !in WatchRun(calls))
  {
    hide WatchRun, Accepted;
    var all := calls + [c];
    assert all[..i] == calls[..i] && calls[..|calls|] == calls;
    assert all[|calls|] == c && forall j | 0 <= j < |calls| :: all[j] == calls[j];
  }

  lemma StuckBySnoc(calls: seq<Call>, c: Call, fd: nat)
    ensures StuckBy(calls + [c], fd) <==>
              || (c.op.AddOp? && c.op.fd == fd && c.end == Raised && fd !in WatchRun(calls))
              || (StuckBy(calls, fd) && !Accepted(c, fd))
  {
    hide WatchRun, SticksFrom, Accepted;
    var all := calls + [c];
    SticksSnoc(calls, c, fd, |calls|);
    if StuckBy(calls, fd) {
      var i: nat :| i < |calls| && SticksFrom(calls, fd, i);
      SticksSnoc(calls, c, fd, i);
    }
    if StuckBy(all, fd) {
      var i: nat :| i < |all| && SticksFrom(all, fd, i);
      SticksSnoc(calls, c, fd, i);
    }
  }

  lemma EndingExplained(w: Watch, calls: seq<Call>, c: Call, refuses: bool)
    requires Mirrors(w, calls) && Answers(w, c, refuses)
    ensures c.end == EndingOf(calls, c.op, refuses)
  {
    hide WatchRun, StuckBy, Watched;
    match c.op {
      case AddOp(_, _) =>
      case RemoveOp(fd, _) =>
        WatchedAt(w, fd);
        WatchedSet(w, fd, NO);
      case CleanOp =>
        if c.end == Raised {
          var fd :| fd in w && w[fd] == NO;
          assert StuckBy(calls, fd);
        }
    }
  }

  lemma CallMirrored(w: Watch, calls: seq<Call>, c: Call, refuses: bool)
    requires Mirrors(w, calls) && Answers(w, c, refuses) && (!c.op.CleanOp? ==> c.op.msk != NO)
    requires forall fd | fd in c.gone :: fd in w && w[fd] != NO
    ensures Mirrors(TableStep(w, c), calls + [c])
  {
    hide WatchRun, StuckBy, Watched;
    var next := TableStep(w, c);
    TableWatched(w, c, refuses);
    assert WatchRun(calls + [c]) == Effect(WatchRun(calls), c) by {
      WatchRunSnoc(calls, c);
    }
    forall fd: nat
      ensures (fd in next && next[fd] == NO) <==> StuckBy(calls + [c], fd)
    {
      StuckBySnoc(calls, c, fd);
      WatchedSet(w, fd, NO);
    }
  }

  lemma WatchRunSnoc(calls: seq<Call>, c: Call)
    ensures WatchRun(calls + [c]) == Effect(WatchRun(calls), c)
  {
    assert (calls + [c])[..|calls|] == calls;
  }

  /** What one call leaves in the node table is, for the kernel, its effect. */
  lemma TableWatched(w: Watch, c: Call, refuses: bool)
    requires Answers(w, c, refuses) && (!c.op.CleanOp? ==> c.op.msk != NO)
    ensures Watched(TableStep(w, c)) == Effect(Watched(w), c)
  {
    hide Watched, Answers, TableStep, Effect;
    match c.op {
      case AddOp(_, _) => AddWatched(w, c, refuses);
      case RemoveOp(_, _) => RemoveWatched(w, c, refuses);
      case CleanOp => CleanWatched(w, c, refuses);
    }
  }

  lemma AddWatched(w: Watch, c: Call, refuses: bool)
    requires Answers(w, c, refuses) && c.op.AddOp? && c.op.msk != NO
    ensures Watched(TableStep(w, c)) == Effect(Watched(w), c)
  {
    hide Watched;
    var fd := c.op.fd;
    if refuses {
      WatchedSet(w, fd, NO);
      WatchedUnchanged(Watched(w), fd);
    } else {
      WatchedAt(w, fd);
      WatchedSet(w, fd, Union(MaskOf(w, fd), c.op.msk));
    }
  }

  lemma WatchedUnchanged(w: Watch, fd: nat)
    ensures fd !in w ==> w - {fd} == w
  {
  }

  lemma RemoveWatched(w: Watch, c: Call, refuses: bool)
    requires Answers(w, c, refuses) && c.op.RemoveOp?
    ensures Watched(TableStep(w, c)) == Effect(Watched(w), c)
  {
    hide Watched;
    var fd := c.op.fd;
    WatchedDrop(w, fd);
    WatchedAt(w, fd);
    WatchedSet(w, fd, Minus(MaskOf(w, fd), c.op.msk));
  }

  lemma CleanWatched(w: Watch, c: Call, refuses: bool)
    requires Answers(w, c, refuses) && c.op.CleanOp?
    ensures Watched(TableStep(w, c)) == Effect(Watched(w), c)
  {
    hide Watched;
    WatchedNothing();
    WatchedLess(w, Members(c.gone));
  }

  lemma WatchedLess(w: Watch, s: set<nat>)
    ensures Watched(w - s) == Watched(w) - s
  {
  }

  lemma WatchedAt(w: Watch, fd: nat)
    ensures MaskOf(Watched(w), fd) == MaskOf(w, fd)
    ensures fd in w && w[fd] != NO ==> fd in Watched(w) && Watched(w)[fd] == w[fd]
  {
  }

  /** A refused ADD on a fresh loop: nothing is watched, a descriptor is counted, and neither call takes it away. */
  method RefusedAddSticks(fd: nat, msk: Mask) returns (loop: Loop, removed: Ending, cleaned: Ending)
    requires msk != NO
    ensures loop.kernel == map[] && loop.fdCount == 1 && removed == Raised && cleaned == Raised
  {
    loop := new Loop();
    var _ := loop.AddHandle(fd, msk, true);
    assert loop.Stuck(fd);
    removed := loop.RemoveHandle(fd, msk, false);
    assert loop.nodes.Keys == {fd};
    var gone;
    cleaned, gone := loop.Clean();
    assert loop.nodes.Keys == {fd};
  }

  /** Both back ends in step with the same node table observe the same bits. */
  lemma BackendsAgree(sel: Select.Loop, epl: Loop, fd: nat)
    requires sel.Valid() && epl.Valid() && sel.nodes == epl.nodes
    ensures fd in sel.rfds <==> MaskOf(epl.kernel, fd).rd
    ensures fd in sel.wfds <==> MaskOf(epl.kernel, fd).wr
    ensures fd in epl.kernel <==> fd < sel.fdSet.Length && sel.fdSet[fd]
    ensures sel.fdCount == epl.fdCount == |epl.kernel|
  {
    assert epl.kernel == epl.nodes;
  }

  lemma WatchedSet(w: Watch, fd: nat, m: Mask)
    ensures Watched(w[fd := m]) == if m == NO then Watched(w) - {fd} else Watched(w)[fd := m]
    ensures fd !in w ==> fd !in Watched(w)
    ensures |w[fd := m]| == if fd in w then |w| else |w| + 1
    ensures fd in Watched(w) <==> fd in w && w[fd] != NO
  {
    WatchedOf(w, fd, m);
    hide Watched;
    assert w[fd := m].Keys == w.Keys + {fd};
  }

  lemma WatchedOf(w: Watch, fd: nat, m: Mask)
    ensures Watched(w[fd := m]) == if m == NO then Watched(w) - {fd} else Watched(w)[fd := m]
    ensures fd in Watched(w) <==> fd in w && w[fd] != NO
  {
  }

  lemma WatchedDrop(w: Watch, fd: nat)
    ensures Watched(w - {fd}) == Watched(w) - {fd}
    ensures |w - {fd}| == if fd in w then |w| - 1 else |w|
  {
    assert (w - {fd}).Keys == w.Keys - {fd};
  }

  lemma WatchedNothing()
    ensures Watched(map[]) == map[]
  {
  }
}
