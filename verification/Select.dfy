/** The select() back end of the event loop, with the descriptor half of the loop object. */
module Select {
  import opened Interest

  datatype Fired = Fired(fd: nat, read: bool)

  class Loop {
    /** The node table, fd to mask. */
    var nodes: Watch
    var fdCount: int
    var rfds: set<nat>
    var wfds: set<nat>
    var fdMax: int
    /** fd_set[fd] says whether fd is part of the sets; its length is FD_SETSIZE. */
    const fdSet: array<bool>

    /** A fresh loop whose state has been zeroed. */
    constructor (size: nat)
      ensures Valid() && nodes == map[] && fdSet.Length == size && fresh(fdSet)
    {
      nodes, fdCount, rfds, wfds, fdMax := map[], 0, {}, {}, 0;
      fdSet := new bool[size](_ => false);
    }

    ghost predicate Valid()
      reads this, fdSet
    {
      Agrees(nodes, fdCount, rfds, wfds, fdSet[..], fdMax)
    }

    /** The part of p_ael_addhandle_impl. */
    method AddImpl(fd: nat, addmsk: Mask)
      requires fd < fdSet.Length
      modifies this`rfds, this`wfds, this`fdMax, fdSet
      ensures rfds == old(rfds) + (if addmsk.rd then {fd} else {})
      ensures wfds == old(wfds) + (if addmsk.wr then {fd} else {})
      ensures fdMax == if fd > old(fdMax) then fd else old(fdMax)
      ensures fdSet[..] == old(fdSet[..])[fd := true]
    {
      if addmsk.rd {
        rfds := rfds + {fd};
      }
      if addmsk.wr {
        wfds := wfds + {fd};
      }
      fdMax := if fd > fdMax then fd else fdMax;
      fdSet[fd] := true;
    }

    /** lt_ael_addhandle: the node is made when it is missing. */
    method AddHandle(fd: nat, msk: Mask)
      requires Valid() && WellFormed(AddOp(fd, msk), fdSet.Length)
      modifies this, fdSet
      ensures Valid() && nodes == OpStep(old(nodes), AddOp(fd, msk))
    {
      hide Agrees, OpStep, Union, IsMax;
      AddAgrees(nodes, fdCount, rfds, wfds, fdSet[..], fdMax, fd, msk);
      var dnd := NO;
      if fd !in nodes {
        fdCount := fdCount + 1;
      } else {
        dnd := nodes[fd];
      }
      AddImpl(fd, msk);
      AddStep(nodes, fd, msk);
      nodes := nodes[fd := Union(dnd, msk)];
    }

    /** p_ael_removehandle_impl, with the scan for the next lower descriptor. */
    method RemoveImpl(fd: nat, dnd: Mask, delmsk: Mask)
      requires fd < fdSet.Length && fdMax < fdSet.Length
      modifies this`rfds, this`wfds, this`fdMax, fdSet
      ensures rfds == old(rfds) - (if delmsk.rd then {fd} else {})
      ensures wfds == old(wfds) - (if delmsk.wr then {fd} else {})
      ensures Minus(dnd, delmsk) != NO ==> fdMax == old(fdMax) && fdSet[..] == old(fdSet[..])
      ensures Minus(dnd, delmsk) == NO ==> fdSet[..] == old(fdSet[..])[fd := false]
      ensures Minus(dnd, delmsk) == NO && fd != old(fdMax) ==> fdMax == old(fdMax)
      ensures Minus(dnd, delmsk) == NO && fd == old(fdMax) ==>
                && -1 <= fdMax < fd && (fdMax >= 0 ==> fdSet[fdMax])
                && forall i | fdMax < i < fd :: !fdSet[i]
    {
      if delmsk.rd {
        rfds := rfds - {fd};
      }
      if delmsk.wr {
        wfds := wfds - {fd};
      }
      if Minus(dnd, delmsk) == NO {
        fdSet[fd] := false;
        if fd == fdMax {
          var i := fdMax - 1;
          while i >= 0
            invariant -1 <= i < fd && fdMax == fd && fdSet[..] == old(fdSet[..])[fd := false]
            invariant forall k | i < k < fd :: !fdSet[k]
          {
            if fdSet[i] {
              break;
            }
            i := i - 1;
          }
          fdMax := i;
        }
      }
    }

    /** lt_ael_removehandle: an unobserved descriptor is reported and ignored. */
    method RemoveHandle(fd: nat, msk: Mask) returns (found: bool)
      requires Valid() && WellFormed(RemoveOp(fd, msk), fdSet.Length)
      modifies this, fdSet
      ensures Valid() && nodes == OpStep(old(nodes), RemoveOp(fd, msk))
      ensures found <==> fd in old(nodes)
    {
      hide Agrees, IsMax, Minus;
      if fd !in nodes {
        return false;
      }
      var dnd := nodes[fd];
      MaxInside(nodes, fdCount, rfds, wfds, fdSet[..], fdMax);
      RemoveImpl(fd, dnd, msk);
      if Minus(dnd, msk) == NO {
        DropAgrees(nodes, fdCount, old(rfds), old(wfds), old(fdSet[..]), old(fdMax), fd, msk, fdSet[..], fdMax);
        nodes := nodes - {fd};
        fdCount := fdCount - 1;
      } else {
        NarrowAgrees(nodes, fdCount, old(rfds), old(wfds), fdSet[..], fdMax, fd, msk);
        nodes := nodes[fd := Minus(dnd, msk)];
      }
      return true;
    }

    /** The descriptor part of lt_ael_clean, in whatever order the table is walked. */
    method Clean()
      requires Valid()
      modifies this, fdSet
      ensures Valid() && nodes == map[]
      ensures fdCount == 0 && rfds == {} && wfds == {} && fdMax <= 0
    {
      hide Agrees, IsMax;
      while nodes.Keys != {}
        invariant Valid()
        decreases |nodes.Keys|
      {
        var fd :| fd in nodes.Keys;
        CleanNode(fd);
      }
      assert Agrees(map[], fdCount, rfds, wfds, fdSet[..], fdMax);
      NothingLeft(fdCount, rfds, wfds, fdSet[..], fdMax);
    }

    method CleanNode(fd: nat)
      requires Valid() && fd in nodes
      modifies this, fdSet
      ensures Valid() && nodes == old(nodes) - {fd}
    {
      hide Agrees, IsMax;
      MaxInside(nodes, fdCount, rfds, wfds, fdSet[..], fdMax);
      RemoveImpl(fd, nodes[fd], RW);
      DropAgrees(nodes, fdCount, old(rfds), old(wfds), old(fdSet[..]), old(fdMax), fd, RW, fdSet[..], fdMax);
      nodes := nodes - {fd};
      fdCount := fdCount - 1;
    }

    /** Any sequence of calls. */
    method Replay(ops: seq<Op>)
      requires Valid() && nodes == map[] && forall i | 0 <= i < |ops| :: WellFormed(ops[i], fdSet.Length)
      modifies this, fdSet
      ensures Valid() && nodes == OpRun(map[], ops)
    {
      for i := 0 to |ops|
        invariant Valid() && nodes == OpRun(map[], ops[..i])
      {
        assert ops[..i + 1][..i] == ops[..i];
        match ops[i] {
          case AddOp(fd, msk) => AddHandle(fd, msk);
          case RemoveOp(fd, msk) => var _ := RemoveHandle(fd, msk);
          case CleanOp => Clean();
        }
      }
      assert ops[..|ops|] == ops;
    }

    /**
      * The dispatch loop of p_ael_poll_impl after select() has left `rd` and `wr` of the observed bits set
      * and returned their number. Its early exit counts descriptors down from a number of bits, yet every
      * ready descriptor gets exactly one call, in ascending order.
      */
    method Dispatch(rd: set<nat>, wr: set<nat>, ready: nat) returns (log: seq<Fired>)
      requires Valid() && rd <= rfds && wr <= wfds && ready == |rd| + |wr|
      ensures Ascending(log)
      ensures forall fd :: Fired(fd, true) in log <==> fd in rd
      ensures forall fd :: Fired(fd, false) in log <==> fd in wr && fd !in rd
    {
      hide Agrees;
      var i, r := 0, ready;
      log := [];
      DispatchStart(rd, wr);
      while r > 0 && i <= fdMax
        invariant 0 <= i && Dispatched(rd, wr, i, log)
        invariant r >= |From(rd, i)| + |From(wr, i)|
      {
        Ready(nodes, fdCount, rfds, wfds, fdSet[..], fdMax, rd, wr, i);
        DispatchStep(rd, wr, i, log);
        if i in nodes {
          var dnd := nodes[i];
          var msk := Mask(dnd.rd && i in rd, dnd.wr && i in wr);
          if msk != NO {
            var calls := Execute(i, dnd, msk);
            log := log + calls;
            r := r - 1;
          }
        }
        i := i + 1;
      }
      NoneAbove(nodes, fdCount, rfds, wfds, fdSet[..], fdMax, rd, wr, i);
      DispatchDone(rd, wr, i, log);
    }
  }

  /** What one poll calls for a node: at most one callback, reading first. */
  function Calls(fd: nat, dnd: Mask, msk: Mask): seq<Fired> {
    if msk.rd && dnd.rd then [Fired(fd, true)] else if msk.wr && dnd.wr then [Fired(fd, false)] else []
  }

  /** t_ael_dnd_execute: the write callback waits for the next poll when the read callback runs. */
  method Execute(fd: nat, dnd: Mask, msk: Mask) returns (calls: seq<Fired>)
    ensures calls == Calls(fd, dnd, msk) && |calls| <= 1
    ensures calls == [] <==> !(msk.rd && dnd.rd) && !(msk.wr && dnd.wr)
  {
    calls := [];
    var rf := false;
    if msk.rd && dnd.rd {
      calls := calls + [Fired(fd, true)];
      rf := true;
    }
    if msk.wr && dnd.wr && !rf {
      calls := calls + [Fired(fd, false)];
    }
  }

  ghost predicate Ascending(log: seq<Fired>) {
    forall i, j | 0 <= i < j < |log| :: log[i].fd < log[j].fd
  }

  ghost function From(s: set<nat>, i: nat): set<nat> {
    set fd | fd in s && fd >= i
  }

  /** The calls for every ready descriptor below `i` have been made. */
  ghost predicate Dispatched(rd: set<nat>, wr: set<nat>, i: nat, log: seq<Fired>) {
    && Ascending(log)
    && (forall f | f in log :: f.fd < i && if f.read then f.fd in rd else f.fd in wr && f.fd !in rd)
    && (forall fd | fd in rd && fd < i :: Fired(fd, true) in log)
    && (forall fd | fd in wr && fd !in rd && fd < i :: Fired(fd, false) in log)
  }

  lemma DispatchStart(rd: set<nat>, wr: set<nat>)
    ensures Dispatched(rd, wr, 0, []) && From(rd, 0) == rd && From(wr, 0) == wr
  {
  }

  lemma DispatchStep(rd: set<nat>, wr: set<nat>, i: nat, log: seq<Fired>)
    requires Dispatched(rd, wr, i, log)
    ensures Dispatched(rd, wr, i + 1, log + Calls(i, RW, Mask(i in rd, i in wr)))
    ensures |From(rd, i)| == |From(rd, i + 1)| + if i in rd then 1 else 0
    ensures |From(wr, i)| == |From(wr, i + 1)| + if i in wr then 1 else 0
  {
    Peel(rd, i);
    Peel(wr, i);
  }

  lemma Peel(s: set<nat>, i: nat)
    ensures |From(s, i)| == |From(s, i + 1)| + if i in s then 1 else 0
  {
    if i in s {
      assert From(s, i) == From(s, i + 1) + {i};
    } else {
      assert From(s, i) == From(s, i + 1);
    }
  }

  /** A ready bit belongs to a node that asks for it. */
  lemma Ready(w: Watch, count: int, rfds: set<nat>, wfds: set<nat>, marks: seq<bool>, max: int,
              rd: set<nat>, wr: set<nat>, i: nat)
    requires Agrees(w, count, rfds, wfds, marks, max) && rd <= rfds && wr <= wfds
    ensures i in rd ==> i in w && w[i].rd
    ensures i in wr ==> i in w && w[i].wr
  {
  }

  /** When the loop ends nothing ready is left: its count of bits is used up, or no descriptor is above. */
  lemma NoneAbove(w: Watch, count: int, rfds: set<nat>, wfds: set<nat>, marks: seq<bool>, max: int,
                  rd: set<nat>, wr: set<nat>, i: nat)
    requires Agrees(w, count, rfds, wfds, marks, max) && rd <= rfds && wr <= wfds
    requires i > max || |From(rd, i)| + |From(wr, i)| == 0
    ensures From(rd, i) == {} && From(wr, i) == {}
  {
  }

  lemma DispatchDone(rd: set<nat>, wr: set<nat>, i: nat, log: seq<Fired>)
    requires Dispatched(rd, wr, i, log) && From(rd, i) == {} && From(wr, i) == {}
    ensures Ascending(log)
    ensures forall fd :: Fired(fd, true) in log <==> fd in rd
    ensures forall fd :: Fired(fd, false) in log <==> fd in wr && fd !in rd
  {
    assert forall fd | fd in rd :: fd >= i ==> fd in From(rd, i);
    assert forall fd | fd in wr :: fd >= i ==> fd in From(wr, i);
  }

  // ---- Node table against select state ----

  ghost predicate Marked(w: Watch, marks: seq<bool>) {
    && (forall fd | 0 <= fd < |marks| :: marks[fd] <==> fd in w)
    && (forall fd | fd in w :: fd < |marks|)
  }

  /** The largest observed descriptor; 0 or -1 when there is none. */
  ghost predicate IsMax(w: Watch, m: int) {
    if w == map[] then -1 <= m <= 0 else m >= 0 && m in w && forall fd | fd in w :: fd <= m
  }

  /** The bitmaps, the marks, the maximum and the count all say what the node masks say. */
  ghost predicate Agrees(w: Watch, count: int, rd: set<nat>, wr: set<nat>, marks: seq<bool>, max: int) {
    && count == |w|
    && rd == Readers(w) && wr == Writers(w)
    && Marked(w, marks)
    && IsMax(w, max)
    && (forall fd | fd in w :: w[fd] != NO)
  }

  lemma AddStep(w: Watch, fd: nat, msk: Mask)
    ensures OpStep(w, AddOp(fd, msk)) == w[fd := Union(if fd in w then w[fd] else NO, msk)]
  {
  }

  lemma AddAgrees(w: Watch, count: int, rd: set<nat>, wr: set<nat>, marks: seq<bool>, max: int, fd: nat, msk: Mask)
    requires Agrees(w, count, rd, wr, marks, max) && fd < |marks| && msk != NO
    ensures Agrees(OpStep(w, AddOp(fd, msk)), if fd in w then count else count + 1,
                   rd + (if msk.rd then {fd} else {}), wr + (if msk.wr then {fd} else {}),
                   marks[fd := true], if fd > max then fd else max)
  {
    var m := Union(if fd in w then w[fd] else NO, msk);
    assert m != NO;
    hide IsMax, Marked, Readers, Writers, OpStep, Union;
    AddStep(w, fd, msk);
    AddBits(w, fd, msk);
    MarkedWith(w, marks, max, fd, m);
    SetCount(w, fd, m);
  }

  lemma AddBits(w: Watch, fd: nat, msk: Mask)
    ensures var m := Union(if fd in w then w[fd] else NO, msk);
            && Readers(w[fd := m]) == Readers(w) + (if msk.rd then {fd} else {})
            && Writers(w[fd := m]) == Writers(w) + (if msk.wr then {fd} else {})
  {
    hide Readers, Writers;
    SetMask(w, fd, Union(if fd in w then w[fd] else NO, msk));
  }

  lemma SetCount(w: Watch, fd: nat, m: Mask)
    ensures |w[fd := m]| == if fd in w then |w| else |w| + 1
  {
    assert w[fd := m].Keys == w.Keys + {fd};
  }

  lemma MarkedWith(w: Watch, marks: seq<bool>, max: int, fd: nat, m: Mask)
    requires Marked(w, marks) && IsMax(w, max) && fd < |marks|
    ensures Marked(w[fd := m], marks[fd := true])
    ensures IsMax(w[fd := m], if fd > max then fd else max)
  {
    assert fd in w[fd := m];
  }

  /** Taking a node out: the scan finds the largest descriptor that is left. */
  lemma DropAgrees(w: Watch, count: int, rd: set<nat>, wr: set<nat>, marks: seq<bool>, max: int,
                   fd: nat, msk: Mask, left: seq<bool>, after: int)
    requires Agrees(w, count, rd, wr, marks, max) && fd in w && Minus(w[fd], msk) == NO
    requires fd < |marks| && left == marks[fd := false]
    requires fd != max ==> after == max
    requires fd == max ==>
               && -1 <= after < fd && (after >= 0 ==> left[after])
               && forall i | after < i < fd :: !left[i]
    ensures Agrees(w - {fd}, count - 1, rd - (if msk.rd then {fd} else {}), wr - (if msk.wr then {fd} else {}),
                   left, after)
  {
    hide IsMax, Marked, Readers, Writers;
    SetMask(w, fd, NO);
    MarkedWithout(w, marks, fd);
    MaxWithout(w, fd, max, after, left);
    assert (w - {fd}).Keys == w.Keys - {fd};
  }

  lemma MarkedWithout(w: Watch, marks: seq<bool>, fd: nat)
    requires Marked(w, marks) && fd < |marks|
    ensures Marked(w - {fd}, marks[fd := false])
  {
  }

  lemma MaxWithout(w: Watch, fd: nat, before: int, after: int, marks: seq<bool>)
    requires fd in w && IsMax(w, before) && Marked(w - {fd}, marks) && fd < |marks|
    requires fd != before ==> after == before
    requires fd == before ==>
               && -1 <= after < fd && (after >= 0 ==> marks[after])
               && forall i | after < i < fd :: !marks[i]
    ensures IsMax(w - {fd}, after)
  {
    var rest := w - {fd};
    if fd != before {
      assert before in rest;
    } else {
      forall k | k in rest
        ensures k <= after
      {
        assert marks[k];
      }
      assert after >= 0 ==> after in rest;
    }
  }

  lemma NarrowAgrees(w: Watch, count: int, rd: set<nat>, wr: set<nat>, marks: seq<bool>, max: int, fd: nat, msk: Mask)
    requires Agrees(w, count, rd, wr, marks, max) && fd in w && Minus(w[fd], msk) != NO
    ensures Agrees(w[fd := Minus(w[fd], msk)], count, rd - (if msk.rd then {fd} else {}),
                   wr - (if msk.wr then {fd} else {}), marks, max)
  {
    hide Readers, Writers;
    var next := w[fd := Minus(w[fd], msk)];
    SetMask(w, fd, next[fd]);
    assert fd in next;
    assert next.Keys == w.Keys;
  }

  lemma MaxInside(w: Watch, count: int, rd: set<nat>, wr: set<nat>, marks: seq<bool>, max: int)
    requires Agrees(w, count, rd, wr, marks, max) && w != map[]
    ensures max < |marks|
    ensures forall fd | fd in w :: fd < |marks|
  {
  }

  lemma NothingLeft(count: int, rd: set<nat>, wr: set<nat>, marks: seq<bool>, max: int)
    requires Agrees(map[], count, rd, wr, marks, max)
    ensures count == 0 && rd == {} && wr == {} && max <= 0
  {
  }
}
