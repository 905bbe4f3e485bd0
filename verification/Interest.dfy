/** Which descriptors the event loop observes, and the two back ends that have to know it. */
module Interest {
  /** enum t_ael_msk as its two bits. */
  datatype Mask = Mask(rd: bool, wr: bool)

  const NO := Mask(false, false)
  const RW := Mask(true, true)

  function Union(a: Mask, b: Mask): Mask {
    Mask(a.rd || b.rd, a.wr || b.wr)
  }

  function Minus(a: Mask, b: Mask): Mask {
    Mask(a.rd && !b.rd, a.wr && !b.wr)
  }

  // ---- The abstract map ----

  type Watch = map<nat, Mask>

  function MaskOf(w: Watch, fd: nat): Mask {
    if fd in w then w[fd] else NO
  }

  datatype Op = AddOp(fd: nat, msk: Mask) | RemoveOp(fd: nat, msk: Mask) | CleanOp

  /** What every operation means: an fd is in the map as long as some direction of it is observed. */
  function OpStep(w: Watch, op: Op): Watch {
    match op
    case AddOp(fd, msk) => w[fd := Union(MaskOf(w, fd), msk)]
    case RemoveOp(fd, msk) =>
      if fd !in w then w else if Minus(w[fd], msk) == NO then w - {fd} else w[fd := Minus(w[fd], msk)]
    case CleanOp => map[]
  }

  function OpRun(w: Watch, ops: seq<Op>): Watch {
    if ops == [] then w else OpStep(OpRun(w, ops[..|ops| - 1]), ops[|ops| - 1])
  }

  /** A direction is named by one of the three non-empty masks. */
  predicate WellFormed(op: Op, size: nat) {
    !op.CleanOp? ==> op.fd < size && op.msk != NO
  }

  /** The bits of one direction. */
  ghost function Readers(w: Watch): set<nat> {
    set fd | fd in w && w[fd].rd
  }

  ghost function Writers(w: Watch): set<nat> {
    set fd | fd in w && w[fd].wr
  }

  lemma SetMask(w: Watch, fd: nat, m: Mask)
    ensures Readers(w[fd := m]) == if m.rd then Readers(w) + {fd} else Readers(w) - {fd}
    ensures Writers(w[fd := m]) == if m.wr then Writers(w) + {fd} else Writers(w) - {fd}
    ensures fd in Readers(w) <==> fd in w && w[fd].rd
    ensures fd in Writers(w) <==> fd in w && w[fd].wr
    ensures Readers(w - {fd}) == Readers(w) - {fd}
    ensures Writers(w - {fd}) == Writers(w) - {fd}
  {
  }

  /**
    * Independent of the map: a direction of `fd` is observed if and only if it was added after the last
    * time it was removed.
    */
  ghost predicate Observed(ops: seq<Op>, fd: nat, read: bool) {
    exists i | 0 <= i < |ops| ::
      && ops[i].AddOp? && ops[i].fd == fd && Names(ops[i].msk, read)
      && forall j | i < j < |ops| :: !Drops(ops[j], fd, read)
  }

  predicate Names(msk: Mask, read: bool) {
    if read then msk.rd else msk.wr
  }

  predicate Drops(op: Op, fd: nat, read: bool) {
    op.CleanOp? || (op.RemoveOp? && op.fd == fd && Names(op.msk, read))
  }

  lemma {:induction false} RunObserves(ops: seq<Op>, fd: nat, read: bool)
    ensures Names(MaskOf(OpRun(map[], ops), fd), read) <==> Observed(ops, fd, read)
  {
    if ops != [] {
      var n := |ops| - 1;
      var init, last := ops[..n], ops[n];
      RunObserves(init, fd, read);
      if last.AddOp? && last.fd == fd && Names(last.msk, read) {
        assert ops[n] == last;
        assert Observed(ops, fd, read);
      } else if Drops(last, fd, read) {
        assert !Observed(ops, fd, read);
      } else {
        if Observed(init, fd, read) {
          var i :| 0 <= i < n && init[i].AddOp? && init[i].fd == fd && Names(init[i].msk, read)
                   && forall j | i < j < n :: !Drops(init[j], fd, read);
          assert ops[i] == init[i];
          assert forall j | i < j < |ops| :: j < n ==> ops[j] == init[j];
        }
        if Observed(ops, fd, read) {
          var i :| 0 <= i < |ops| && ops[i].AddOp? && ops[i].fd == fd && Names(ops[i].msk, read)
                   && forall j | i < j < |ops| :: !Drops(ops[j], fd, read);
          assert init[i] == ops[i];
          assert forall j | i < j < n :: init[j] == ops[j];
        }
      }
    }
  }

  /** No node is ever kept for nothing. */
  lemma {:induction false} RunHasNoEmptyMask(ops: seq<Op>, size: nat)
    requires forall i | 0 <= i < |ops| :: WellFormed(ops[i], size)
    ensures forall fd | fd in OpRun(map[], ops) :: fd < size && OpRun(map[], ops)[fd] != NO
  {
    if ops != [] {
      RunHasNoEmptyMask(ops[..|ops| - 1], size);
    }
  }
}
