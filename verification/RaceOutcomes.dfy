/** Which of several concurrent Approve calls succeed, under a lock that is held to commit. */
module RaceOutcomes {
  import opened Calendar
  import opened Bookings
  import opened Protocol
  import opened Runs
  import opened ApproveRace

  // ---------- at most one of two rivals wins ----------

  ghost predicate Rivals(rows: seq<BookingData>, i: nat, j: nat)
    requires i < |rows| && j < |rows|
  {
    i != j && rows[i].resource == rows[j].resource && Overlaps(rows[i].slot, rows[j].slot)
  }

  // Of two overlapping bookings of one resource, an approved one leaves the other neither approved
  // nor open.
  ghost predicate Settled(rows: seq<BookingData>, i: nat, j: nat)
    requires i < |rows| && j < |rows|
  {
    && (rows[i].status.Approved? ==> !IsActive(rows[j].status))
    && (rows[j].status.Approved? ==> !IsActive(rows[i].status))
  }

  lemma ApproveKeepsSettled(st: Store, cmd: Command, i: nat, j: nat)
    requires cmd.Approve? && UniqueIds(st.rows) && i < |st.rows| && j < |st.rows|
    requires Rivals(st.rows, i, j) && Settled(st.rows, i, j)
    ensures |Next(st, cmd).rows| == |st.rows| && UniqueIds(Next(st, cmd).rows)
    ensures Rivals(Next(st, cmd).rows, i, j) && Settled(Next(st, cmd).rows, i, j)
  {
    match OutcomeOf(st, cmd)
    case Changes(ch, _, _) =>
      ApprovalSettlesAll(st.rows, ch.target, Call(cmd.actor, cmd.booking, cmd.now, cmd.operational, Started));
    case _ =>
  }

  lemma {:induction false} SerialKeepsSettled(st: Store, cmds: seq<Command>, i: nat, j: nat)
    requires (forall k :: 0 <= k < |cmds| ==> cmds[k].Approve?) && UniqueIds(st.rows)
    requires i < |st.rows| && j < |st.rows| && Rivals(st.rows, i, j) && Settled(st.rows, i, j)
    ensures |Exec(st, cmds).rows| == |st.rows| && Settled(Exec(st, cmds).rows, i, j)
    decreases |cmds|
  {
    if cmds != [] {
      ApproveKeepsSettled(st, cmds[0], i, j);
      SerialKeepsSettled(Next(st, cmds[0]), cmds[1..], i, j);
    }
  }

  lemma {:induction false} SerialIsApprovals(lock: Lock, key: int -> int, w: World, schedule: seq<nat>)
    ensures forall k :: 0 <= k < |Serial(lock, key, w, schedule)| ==> Serial(lock, key, w, schedule)[k].Approve?
    decreases |schedule|
  {
    if schedule != [] {
      SerialIsApprovals(lock, key, Step(lock, key, w, schedule[0]), schedule[1..]);
    }
  }

  // Two overlapping PENDING bookings of one resource never both end APPROVED, in any interleaving of
  // any number of calls, for any key function, with the constraint or without it.
  lemma RivalsNeverBothApproved(key: int -> int, w: World, schedule: seq<nat>, i: nat, j: nat)
    requires Fresh(w) && i < |w.store.rows| && j < |w.store.rows| && Rivals(w.store.rows, i, j)
    requires w.store.rows[i].status.Pending? && w.store.rows[j].status.Pending?
    ensures var rows := Run(HeldToCommit, key, w, schedule).store.rows;
            |rows| == |w.store.rows| && !(rows[i].status.Approved? && rows[j].status.Approved?)
  {
    FreshIsInv(key, w);
    RaceRefinesProtocol(key, w, schedule);
    SerialIsApprovals(HeldToCommit, key, w, schedule);
    SerialKeepsSettled(w.store, Serial(HeldToCommit, key, w, schedule), i, j);
  }

  // ---------- at most one of two rival calls succeeds ----------

  // A call that is done has its booking approved, and no open rival of that booking is left.
  ghost predicate Won(w: World, p: nat)
    requires p < |w.calls|
  {
    w.calls[p].phase.Done? ==>
      && Find(w.store.rows, w.calls[p].booking).Some?
      && var i := Find(w.store.rows, w.calls[p].booking).value;
         && w.store.rows[i].status.Approved?
         && forall j :: 0 <= j < |w.store.rows| && Rivals(w.store.rows, i, j) ==> !w.store.rows[j].status.Pending?
  }

  ghost predicate Rival(rows: seq<BookingData>, a: Call, b: Call) {
    && Find(rows, a.booking).Some? && Find(rows, b.booking).Some?
    && (a.booking == b.booking || Rivals(rows, Find(rows, a.booking).value, Find(rows, b.booking).value))
  }

  ghost predicate OneWinner(w: World) {
    && (forall p :: 0 <= p < |w.calls| ==> Won(w, p))
    && forall p, q :: 0 <= p < q < |w.calls| && w.calls[p].phase.Done? && w.calls[q].phase.Done? ==>
         !Rival(w.store.rows, w.calls[p], w.calls[q])
  }

  // What a commit settles: its target is approved, every row it touches is settled, the rest stay.
  ghost predicate Settles(w: World, v: World, p: nat)
    requires p < |w.calls| && Find(w.store.rows, w.calls[p].booking).Some?
  {
    var c, rows, later := w.calls[p], w.store.rows, v.store.rows;
    var t := rows[Find(rows, c.booking).value];
    && t.status.Pending?
    && UniqueIds(later) && AgreeOn(t.resource + 1, rows, later)
    && (forall id :: Find(later, id) == Find(rows, id))
    && (forall i :: 0 <= i < |rows| && rows[i].status.Approved? ==> later[i] == rows[i])
    && (forall i :: 0 <= i < |rows| && later[i].status.Pending? ==> rows[i] == later[i] && !Touches(t, rows[i]))
    && (forall i :: 0 <= i < |rows| && !Touches(t, rows[i]) ==> later[i] == rows[i])
    && (forall i :: 0 <= i < |rows| && rows[i].id == c.booking ==> later[i].status.Approved?)
    && v.calls == w.calls[p := c.(phase := Done)]
  }

  lemma CommitSettles(key: int -> int, w: World, p: nat)
    requires RaceInv(key, w) && p < |w.calls| && w.calls[p].phase.Written?
    ensures Find(w.store.rows, w.calls[p].booking).Some?
    ensures Settles(w, Step(HeldToCommit, key, w, p), p)
  {
    var c, rows := w.calls[p], w.store.rows;
    assert Gated(w, p) && UpToDate(w, p);
    var t := rows[Find(rows, c.booking).value];
    MergeIsApply(rows, t, c);
    ApprovalSettles(w, Step(HeldToCommit, key, w, p), p);
  }

  lemma ApprovalSettles(w: World, v: World, p: nat)
    requires UniqueIds(w.store.rows) && p < |w.calls| && Find(w.store.rows, w.calls[p].booking).Some?
    requires var t := w.store.rows[Find(w.store.rows, w.calls[p].booking).value];
             && t.status.Pending?
             && v.store.rows == Apply(ApproveOne(t, w.calls[p].actor, w.calls[p].now), w.store.rows)
    requires v.calls == w.calls[p := w.calls[p].(phase := Done)]
    ensures Settles(w, v, p)
  {
    var t := w.store.rows[Find(w.store.rows, w.calls[p].booking).value];
    ApprovalSettlesAll(w.store.rows, t, w.calls[p]);
    ApprovalSparesTheRest(w.store.rows, t, w.calls[p]);
  }

  lemma ApprovalSparesTheRest(rows: seq<BookingData>, t: BookingData, c: Call)
    requires UniqueIds(rows) && t in rows
    ensures var later := Apply(ApproveOne(t, c.actor, c.now), rows);
            && (forall id :: Find(later, id) == Find(rows, id))
            && (forall i :: 0 <= i < |rows| && !Touches(t, rows[i]) ==> later[i] == rows[i])
  {
    var later := Apply(ApproveOne(t, c.actor, c.now), rows);
    ApprovalStaysInResource(t.resource + 1, rows, t, c);
    forall id ensures Find(later, id) == Find(rows, id) {
      AgreeOnFind(t.resource + 1, rows, later, id);
    }
  }

  lemma SettlesKeepsWon(w: World, v: World, p: nat, q: nat)
    requires p < |w.calls| && Find(w.store.rows, w.calls[p].booking).Some? && Settles(w, v, p)
    requires q < |w.calls| && Won(w, q)
    ensures Won(v, q)
  {
  }

  lemma SettlesSparesWinners(w: World, v: World, p: nat, q: nat)
    requires p < |w.calls| && Find(w.store.rows, w.calls[p].booking).Some? && Settles(w, v, p)
    requires q < |w.calls| && q != p && w.calls[q].phase.Done? && Won(w, q)
    ensures !Rival(v.store.rows, w.calls[q], w.calls[p]) && !Rival(v.store.rows, w.calls[p], w.calls[q])
  {
  }

  // The same bookings at the same positions, whatever their status.
  ghost predicate SameBookings(rows: seq<BookingData>, later: seq<BookingData>) {
    && |rows| == |later|
    && (forall i :: 0 <= i < |rows| ==> SameBooking(rows[i], later[i]))
    && forall id :: Find(later, id) == Find(rows, id)
  }

  lemma SameRivals(rows: seq<BookingData>, later: seq<BookingData>, a: Call, b: Call)
    requires SameBookings(rows, later)
    ensures Rival(later, a, b) <==> Rival(rows, a, b)
  {
  }

  lemma CommitKeepsOneWinner(key: int -> int, w: World, p: nat)
    requires RaceInv(key, w) && OneWinner(w) && p < |w.calls| && w.calls[p].phase.Written?
    ensures OneWinner(Step(HeldToCommit, key, w, p))
  {
    var v := Step(HeldToCommit, key, w, p);
    CommitSettles(key, w, p);
    forall q | 0 <= q < |v.calls| ensures Won(v, q) {
      assert Won(w, q);
      SettlesKeepsWon(w, v, p, q);
    }
    forall q, r | 0 <= q < r < |v.calls| && v.calls[q].phase.Done? && v.calls[r].phase.Done?
      ensures !Rival(v.store.rows, v.calls[q], v.calls[r])
    {
      if q == p {
        SettlesSparesWinners(w, v, p, r);
      } else if r == p {
        SettlesSparesWinners(w, v, p, q);
      } else {
        SameRivals(w.store.rows, v.store.rows, w.calls[q], w.calls[r]);
      }
    }
  }

  lemma {:induction false} RunKeepsOneWinner(key: int -> int, w: World, schedule: seq<nat>)
    requires RaceInv(key, w) && OneWinner(w)
    ensures OneWinner(Run(HeldToCommit, key, w, schedule))
    decreases |schedule|
  {
    if schedule != [] {
      var p := schedule[0];
      StepKeepsRaceInv(key, w, p);
      if p < |w.calls| {
        if w.calls[p].phase.Written? {
          CommitKeepsOneWinner(key, w, p);
        } else {
          QuietStepKeepsOneWinner(key, w, p);
        }
      }
      RunKeepsOneWinner(key, Step(HeldToCommit, key, w, p), schedule[1..]);
    }
  }

  lemma QuietStepShape(key: int -> int, w: World, p: nat)
    requires p < |w.calls| && !w.calls[p].phase.Written?
    ensures var v := Step(HeldToCommit, key, w, p);
            && v.store == w.store && |v.calls| == |w.calls|
            && (forall q :: 0 <= q < |w.calls| && q != p ==> v.calls[q] == w.calls[q])
            && (v.calls[p].phase.Done? ==> v.calls[p] == w.calls[p])
  {
  }

  lemma QuietStepKeepsOneWinner(key: int -> int, w: World, p: nat)
    requires OneWinner(w) && p < |w.calls| && !w.calls[p].phase.Written?
    ensures OneWinner(Step(HeldToCommit, key, w, p))
  {
    var v := Step(HeldToCommit, key, w, p);
    QuietStepShape(key, w, p);
    SameWinners(w, v);
  }

  lemma SameWinners(w: World, v: World)
    requires OneWinner(w) && v.store == w.store && |v.calls| == |w.calls|
    requires forall q :: 0 <= q < |w.calls| && v.calls[q].phase.Done? ==> v.calls[q] == w.calls[q]
    ensures OneWinner(v)
  {
    forall q | 0 <= q < |v.calls| ensures Won(v, q) {
      assert Won(w, q);
    }
  }

  // Calls keep their bookings, and bookings their identity, so rivals stay rivals.
  lemma {:induction false} RunKeepsRivals(key: int -> int, w: World, schedule: seq<nat>)
    requires RaceInv(key, w)
    ensures SameBookings(w.store.rows, Run(HeldToCommit, key, w, schedule).store.rows)
    ensures |Run(HeldToCommit, key, w, schedule).calls| == |w.calls|
    ensures forall p :: 0 <= p < |w.calls| ==>
              Run(HeldToCommit, key, w, schedule).calls[p].booking == w.calls[p].booking
    decreases |schedule|
  {
    if schedule != [] {
      var p := schedule[0];
      StepKeepsRaceInv(key, w, p);
      StepKeepsCalls(HeldToCommit, key, w, p);
      if p < |w.calls| {
        if w.calls[p].phase.Written? {
          CommitSettles(key, w, p);
        } else {
          QuietStepShape(key, w, p);
        }
      }
      RunKeepsRivals(key, Step(HeldToCommit, key, w, p), schedule[1..]);
    }
  }

  // Of two calls for the same booking, or for overlapping bookings of one resource, at most one succeeds.
  lemma RivalCallsNeverBothSucceed(key: int -> int, w: World, schedule: seq<nat>, p: nat, q: nat)
    requires Fresh(w) && p < q < |w.calls| && Rival(w.store.rows, w.calls[p], w.calls[q])
    ensures var v := Run(HeldToCommit, key, w, schedule);
            |v.calls| == |w.calls| && !(v.calls[p].phase.Done? && v.calls[q].phase.Done?)
  {
    var v := Run(HeldToCommit, key, w, schedule);
    FreshIsInv(key, w);
    RunKeepsOneWinner(key, w, schedule);
    RunKeepsRivals(key, w, schedule);
    SameRivals(w.store.rows, v.store.rows, w.calls[p], w.calls[q]);
    assert Rival(v.store.rows, v.calls[p], v.calls[q]);
  }

  // In every world that any interleaving reaches: once a call has succeeded, a rival that gets the lock
  // re-reads a booking that is no longer PENDING, fails, changes nothing and frees the lock.
  lemma LoserFailsUnchanged(key: int -> int, w: World, schedule: seq<nat>, p: nat, q: nat)
    requires Fresh(w) && p < |w.calls| && q < |w.calls| && Rival(w.store.rows, w.calls[p], w.calls[q])
    requires var v := Run(HeldToCommit, key, w, schedule);
             |v.calls| == |w.calls| && v.calls[p].phase.Done? && v.calls[q].phase.Holding?
    ensures var v := Run(HeldToCommit, key, w, schedule); var after := Step(HeldToCommit, key, v, q);
            && Find(v.store.rows, v.calls[q].booking).Some?
            && !v.store.rows[Find(v.store.rows, v.calls[q].booking).value].status.Pending?
            && after.calls == v.calls[q := v.calls[q].(phase := Failed(BookingInvalidStateTransition))]
            && after.store == v.store && key(v.calls[q].phase.resource) !in after.locks
  {
    var v := Run(HeldToCommit, key, w, schedule);
    FreshIsInv(key, w);
    RunKeepsOneWinner(key, w, schedule);
    RunKeepsRivals(key, w, schedule);
    SameRivals(w.store.rows, v.store.rows, w.calls[p], w.calls[q]);
    assert Rival(v.store.rows, v.calls[p], v.calls[q]);
    assert Won(v, p);
  }

  // ---------- exactly one of several rivals succeeds ----------

  ghost predicate Beaten(w: World, p: nat)
    requires p < |w.calls|
  {
    exists q :: 0 <= q < |w.calls| && w.calls[q].phase.Done? && Rival(w.store.rows, w.calls[q], w.calls[p])
  }

  // A call of the booking's owner, who may approve: passes every gate but the re-read.
  ghost predicate Entitled(w: World, p: nat)
    requires p < |w.calls|
  {
    var c, rows := w.calls[p], w.store.rows;
    && c.operational && Find(rows, c.booking).Some?
    && Owns(w.store, c.actor, rows[Find(rows, c.booking).value].resource)
  }

  // Such a call fails only for a rival that has succeeded; until then its booking stays PENDING.
  ghost predicate Fair(w: World, p: nat)
    requires p < |w.calls|
  {
    var c, rows := w.calls[p], w.store.rows;
    && Entitled(w, p)
    && (c.phase.Failed? ==> c.phase.failure == BookingInvalidStateTransition && Beaten(w, p))
    && (c.phase.Done? || Beaten(w, p) || rows[Find(rows, c.booking).value].status.Pending?)
  }

  lemma SameBeaten(w: World, v: World, p: nat)
    requires p < |w.calls| == |v.calls| && v.store == w.store && v.calls[p].booking == w.calls[p].booking
    requires forall q :: 0 <= q < |w.calls| && w.calls[q].phase.Done? ==> v.calls[q] == w.calls[q]
    ensures Beaten(w, p) ==> Beaten(v, p)
  {
    if Beaten(w, p) {
      var q :| 0 <= q < |w.calls| && w.calls[q].phase.Done? && Rival(w.store.rows, w.calls[q], w.calls[p]);
      assert Rival(v.store.rows, v.calls[q], v.calls[p]);
    }
  }

  lemma OwnStepIsFair(key: int -> int, w: World, p: nat)
    requires RaceInv(key, w) && Clean(w.store.rows) && p < |w.calls| && !w.calls[p].phase.Written? && Fair(w, p)
    ensures Fair(Step(HeldToCommit, key, w, p), p)
  {
    var c, rows, v := w.calls[p], w.store.rows, Step(HeldToCommit, key, w, p);
    var t := rows[Find(rows, c.booking).value];
    QuietStepShape(key, w, p);
    StepKeepsCalls(HeldToCommit, key, w, p);
    if !c.phase.Done? {
      SameBeaten(w, v, p);
    }
    if t.status.Pending? {
      CleanTargetIsNotBlocked(rows, t);
    }
  }

  // A step changes the phase of its own call, and nothing else of any call.
  lemma StepMovesOnePhase(lock: Lock, key: int -> int, w: World, p: nat)
    ensures var v := Step(lock, key, w, p);
            v.calls == w.calls
            || (p < |w.calls| == |v.calls| && v.calls == w.calls[p := w.calls[p].(phase := v.calls[p].phase)])
  {
  }

  lemma StepKeepsCalls(lock: Lock, key: int -> int, w: World, p: nat)
    ensures var v := Step(lock, key, w, p);
            |v.calls| == |w.calls| && forall q :: 0 <= q < |w.calls| ==>
              v.calls[q] == w.calls[q].(phase := v.calls[q].phase)
  {
    StepMovesOnePhase(lock, key, w, p);
  }

  lemma QuietStepIsFair(key: int -> int, w: World, p: nat, q: nat)
    requires RaceInv(key, w) && Clean(w.store.rows) && p < |w.calls| && !w.calls[p].phase.Written?
    requires q < |w.calls| && Fair(w, q)
    ensures Fair(Step(HeldToCommit, key, w, p), q)
  {
    if p == q {
      OwnStepIsFair(key, w, p);
    } else {
      QuietStepShape(key, w, p);
      if w.calls[p].phase.Done? {
        assert Step(HeldToCommit, key, w, p) == w;
      }
      SameBeaten(w, Step(HeldToCommit, key, w, p), q);
    }
  }

  lemma CommitStepIsFair(key: int -> int, w: World, p: nat, q: nat)
    requires RaceInv(key, w) && p < |w.calls| && w.calls[p].phase.Written?
    requires q < |w.calls| && Fair(w, q)
    ensures Fair(Step(HeldToCommit, key, w, p), q)
  {
    var v := Step(HeldToCommit, key, w, p);
    CommitSettles(key, w, p);
    CommitEffect(key, w, p);
    SettlesIsFair(w, v, p, q);
  }

  lemma SettlesIsFair(w: World, v: World, p: nat, q: nat)
    requires p < |w.calls| && Find(w.store.rows, w.calls[p].booking).Some? && Settles(w, v, p)
    requires v.store == w.store.(rows := v.store.rows, log := v.store.log)
    requires q < |w.calls| && Fair(w, q)
    ensures Fair(v, q)
  {
    var rows, later, c, d := w.store.rows, v.store.rows, w.calls[p], w.calls[q];
    var at, i := Find(rows, c.booking).value, Find(rows, d.booking).value;
    if q != p {
      if Beaten(w, q) {
        var r :| 0 <= r < |w.calls| && w.calls[r].phase.Done? && Rival(rows, w.calls[r], d);
        SameRivals(rows, later, w.calls[r], d);
        assert v.calls[r].phase.Done? && Rival(later, v.calls[r], v.calls[q]);
      } else if !d.phase.Done? && !later[i].status.Pending? {
        assert Touches(rows[at], rows[i]);
        assert Rival(later, v.calls[p], v.calls[q]);
      }
    }
  }

  lemma CommitStaysClean(key: int -> int, w: World, p: nat)
    requires RaceInv(key, w) && p < |w.calls| && w.calls[p].phase.Written? && Clean(w.store.rows)
    ensures Clean(Step(HeldToCommit, key, w, p).store.rows)
  {
    var c, rows := w.calls[p], w.store.rows;
    assert Gated(w, p) && UpToDate(w, p);
    var t := rows[Find(rows, c.booking).value];
    MergeIsApply(rows, t, c);
    ApplyKeepsClean(ApproveOne(t, c.actor, c.now), rows);
  }

  lemma {:induction false} RunIsFair(key: int -> int, w: World, schedule: seq<nat>, q: nat)
    requires RaceInv(key, w) && Clean(w.store.rows) && q < |w.calls| && Fair(w, q)
    ensures q < |Run(HeldToCommit, key, w, schedule).calls| && Fair(Run(HeldToCommit, key, w, schedule), q)
    decreases |schedule|
  {
    if schedule != [] {
      var p := schedule[0];
      StepKeepsRaceInv(key, w, p);
      StepKeepsCalls(HeldToCommit, key, w, p);
      if p < |w.calls| {
        if w.calls[p].phase.Written? {
          CommitStepIsFair(key, w, p, q);
          CommitStaysClean(key, w, p);
        } else {
          QuietStepIsFair(key, w, p, q);
          QuietStepShape(key, w, p);
        }
      }
      RunIsFair(key, Step(HeldToCommit, key, w, p), schedule[1..], q);
    }
  }

  // From a store where no PENDING overlaps an APPROVED, an entitled call for a PENDING booking fails
  // only because a rival call has succeeded.
  lemma LostOnlyToARival(key: int -> int, w: World, schedule: seq<nat>, q: nat)
    requires Fresh(w) && Clean(w.store.rows) && q < |w.calls| && Entitled(w, q)
    requires w.store.rows[Find(w.store.rows, w.calls[q].booking).value].status.Pending?
    ensures var v := Run(HeldToCommit, key, w, schedule);
            q < |v.calls| && (v.calls[q].phase.Failed? ==>
              v.calls[q].phase.failure == BookingInvalidStateTransition && Beaten(v, q))
  {
    FreshIsInv(key, w);
    RunIsFair(key, w, schedule, q);
  }

  ghost predicate AllFinished(w: World) {
    forall p :: 0 <= p < |w.calls| ==> Finished(w.calls[p])
  }

  // When entitled calls for PENDING bookings are rivals of one another, and no PENDING overlaps an
  // APPROVED at the start, exactly one of them has succeeded once all have finished.
  lemma ExactlyOneRivalSucceeds(key: int -> int, w: World, schedule: seq<nat>) returns (p: nat)
    requires Fresh(w) && Clean(w.store.rows) && w.calls != []
    requires forall q :: 0 <= q < |w.calls| ==>
      Entitled(w, q) && w.store.rows[Find(w.store.rows, w.calls[q].booking).value].status.Pending?
    requires forall q, r :: 0 <= q < r < |w.calls| ==> Rival(w.store.rows, w.calls[q], w.calls[r])
    requires AllFinished(Run(HeldToCommit, key, w, schedule))
    ensures var v := Run(HeldToCommit, key, w, schedule);
            && p < |v.calls| && v.calls[p].phase.Done?
            && forall q :: 0 <= q < |v.calls| && q != p ==>
                 v.calls[q].phase == Failed(BookingInvalidStateTransition)
  {
    var v := Run(HeldToCommit, key, w, schedule);
    FreshIsInv(key, w);
    RunKeepsOneWinner(key, w, schedule);
    RunKeepsRivals(key, w, schedule);
    forall q, r | 0 <= q < r < |v.calls| ensures Rival(v.store.rows, v.calls[q], v.calls[r]) {
      SameRivals(w.store.rows, v.store.rows, w.calls[q], w.calls[r]);
    }
    forall q | 0 <= q < |v.calls|
      ensures v.calls[q].phase.Failed? ==> v.calls[q].phase.failure == BookingInvalidStateTransition && Beaten(v, q)
    {
      LostOnlyToARival(key, w, schedule, q);
    }
    p := TheOnlyWinner(v);
  }

  lemma TheOnlyWinner(v: World) returns (p: nat)
    requires OneWinner(v) && AllFinished(v) && v.calls != []
    requires forall q, r :: 0 <= q < r < |v.calls| ==> Rival(v.store.rows, v.calls[q], v.calls[r])
    requires forall q :: 0 <= q < |v.calls| && v.calls[q].phase.Failed? ==>
      v.calls[q].phase.failure == BookingInvalidStateTransition && Beaten(v, q)
    ensures p < |v.calls| && v.calls[p].phase.Done?
    ensures forall q :: 0 <= q < |v.calls| && q != p ==> v.calls[q].phase == Failed(BookingInvalidStateTransition)
  {
    assert Finished(v.calls[0]);
    if v.calls[0].phase.Done? {
      p := 0;
    } else {
      assert Beaten(v, 0);
      p :| 0 <= p < |v.calls| && v.calls[p].phase.Done? && Rival(v.store.rows, v.calls[p], v.calls[0]);
    }
    forall q | 0 <= q < |v.calls| && q != p ensures v.calls[q].phase == Failed(BookingInvalidStateTransition) {
      assert Finished(v.calls[q]);
    }
  }

  ghost predicate Finished(c: Call) {
    c.phase.Done? || c.phase.Failed?
  }

  // While some call is unfinished, some call can move: a blocked call waits for one that is not blocked.
  lemma NeverStuck(key: int -> int, w: World, p: nat)
    requires RaceInv(key, w) && p < |w.calls| && !Finished(w.calls[p])
    ensures exists q :: 0 <= q < |w.calls| && Step(HeldToCommit, key, w, q) != w
  {
    var c := w.calls[p];
    if c.phase.Loaded? && key(c.phase.resource) in w.locks {
      var q := w.locks[key(c.phase.resource)];
      assert HeldBy(key, w, key(c.phase.resource));
      assert Step(HeldToCommit, key, w, q).calls[q].phase != w.calls[q].phase;
    } else {
      assert Step(HeldToCommit, key, w, p).calls[p].phase != c.phase;
    }
  }

  // ---------- every run ends ----------

  function PhaseRank(ph: Phase): nat {
    match ph
    case Started => 4
    case Loaded(_) => 3
    case Holding(_) => 2
    case Written(_, _, _) => 1
    case _ => 0
  }

  function TotalRank(calls: seq<Call>): (r: nat)
    ensures r <= 4 * |calls|
  {
    if calls == [] then 0 else PhaseRank(calls[0].phase) + TotalRank(calls[1..])
  }

  lemma {:induction false} RankOfUpdate(calls: seq<Call>, p: nat, c: Call)
    requires p < |calls|
    ensures TotalRank(calls[p := c]) + PhaseRank(calls[p].phase) == TotalRank(calls) + PhaseRank(c.phase)
  {
    if p == 0 {
      assert calls[0 := c][1..] == calls[1..];
    } else {
      assert calls[p := c][1..] == calls[1..][p - 1 := c];
      RankOfUpdate(calls[1..], p - 1, c);
    }
  }

  lemma StepLowersRank(lock: Lock, key: int -> int, w: World, p: nat)
    requires Step(lock, key, w, p) != w
    ensures TotalRank(Step(lock, key, w, p).calls) < TotalRank(w.calls)
  {
    var v := Step(lock, key, w, p);
    StepMovesOnePhase(lock, key, w, p);
    EffectiveStepMovesOn(lock, key, w, p);
    RankOfUpdate(w.calls, p, v.calls[p]);
  }

  lemma EffectiveStepMovesOn(lock: Lock, key: int -> int, w: World, p: nat)
    requires Step(lock, key, w, p) != w
    ensures p < |w.calls| == |Step(lock, key, w, p).calls|
    ensures PhaseRank(Step(lock, key, w, p).calls[p].phase) < PhaseRank(w.calls[p].phase)
  {
  }

  // How many steps of a schedule change anything.
  ghost function Effective(lock: Lock, key: int -> int, w: World, schedule: seq<nat>): nat
    decreases |schedule|
  {
    if schedule == [] then 0
    else
      var v := Step(lock, key, w, schedule[0]);
      (if v == w then 0 else 1) + Effective(lock, key, v, schedule[1..])
  }

  // However long the schedule, at most four steps of each call take effect.
  lemma {:induction false} FewStepsTakeEffect(lock: Lock, key: int -> int, w: World, schedule: seq<nat>)
    ensures Effective(lock, key, w, schedule) + TotalRank(Run(lock, key, w, schedule).calls) <= TotalRank(w.calls)
    ensures Effective(lock, key, w, schedule) <= 4 * |w.calls|
    decreases |schedule|
  {
    if schedule != [] {
      var p := schedule[0];
      FewStepsTakeEffect(lock, key, Step(lock, key, w, p), schedule[1..]);
      if Step(lock, key, w, p) != w {
        StepLowersRank(lock, key, w, p);
      }
    }
  }

  // From every world that keeps the invariant some schedule lets all calls finish.
  lemma EveryRunCanFinish(key: int -> int, w: World) returns (schedule: seq<nat>)
    requires RaceInv(key, w)
    ensures AllFinished(Run(HeldToCommit, key, w, schedule))
    decreases TotalRank(w.calls)
  {
    if AllFinished(w) {
      schedule := [];
    } else {
      var p :| 0 <= p < |w.calls| && !Finished(w.calls[p]);
      NeverStuck(key, w, p);
      var q :| 0 <= q < |w.calls| && Step(HeldToCommit, key, w, q) != w;
      StepLowersRank(HeldToCommit, key, w, q);
      StepKeepsRaceInv(key, w, q);
      var rest := EveryRunCanFinish(key, Step(HeldToCommit, key, w, q));
      schedule := [q] + rest;
      assert schedule[1..] == rest;
    }
  }
}
