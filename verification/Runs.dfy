/** Theorems about single commands and whole runs of the booking protocol. */
module Runs {
  import opened Calendar
  import opened Pricing
  import opened Bookings
  import opened Protocol
  import Grid

  // ---------- approval ----------

  // Everything Approve asks for except the exclusion constraint.
  ghost predicate Approvable(st: Store, cmd: Command)
    requires cmd.Approve?
  {
    && cmd.operational
    && Find(st.rows, cmd.booking).Some?
    && Target(st, cmd).status.Pending?
    && Owns(st, cmd.actor, Target(st, cmd).resource)
  }

  ghost function Target(st: Store, cmd: Command): BookingData
    requires cmd.Approve? && Find(st.rows, cmd.booking).Some?
  {
    st.rows[Find(st.rows, cmd.booking).value]
  }

  ghost predicate OverlapsApproved(rows: seq<BookingData>, resource: int, slot: DateTimeRange) {
    exists j :: 0 <= j < |rows| && rows[j].resource == resource && rows[j].status.Approved?
             && Overlaps(rows[j].slot, slot)
  }

  // An otherwise valid Approve aborts exactly when its target overlaps an APPROVED booking of the
  // resource; it then changes nothing.
  lemma ApproveAbortsExactlyOnOverlap(st: Store, cmd: Command)
    requires cmd.Approve? && Inv(st) && st.constrained && Approvable(st, cmd)
    ensures OutcomeOf(st, cmd) == Refused(ApprovedOverlapConstraint)
       <==> OverlapsApproved(st.rows, Target(st, cmd).resource, Target(st, cmd).slot)
    ensures OverlapsApproved(st.rows, Target(st, cmd).resource, Target(st, cmd).slot)
       <==> !OutcomeOf(st, cmd).Changes?
    ensures OutcomeOf(st, cmd).Refused? ==> Next(st, cmd) == st
  {
    BlockedByApproved(st.rows, Target(st, cmd));
  }

  lemma BlockedByApproved(rows: seq<BookingData>, t: BookingData)
    requires UniqueIds(rows) && t in rows && t.status.Pending?
    ensures Blocked(rows, t) <==> OverlapsApproved(rows, t.resource, t.slot)
  {
    if Blocked(rows, t) {
      var b :| b in rows && BlocksApproval(t, b);
      var j :| 0 <= j < |rows| && rows[j] == b;
      assert OverlapsApproved(rows, t.resource, t.slot);
    }
    if OverlapsApproved(rows, t.resource, t.slot) {
      var j :| 0 <= j < |rows| && rows[j].resource == t.resource && rows[j].status.Approved?
            && Overlaps(rows[j].slot, t.slot);
      assert rows[j].id != t.id;
      assert BlocksApproval(t, rows[j]);
    }
  }

  // The query for the competitors of t.
  function RivalsOf(t: BookingData): Query {
    PendingOverlapping(t.resource, t.slot, t.id)
  }

  // A successful Approve approves its target, rejects exactly the overlapping PENDING bookings of the
  // resource, and leaves every other row and every resource as it was.
  lemma ApproveEffect(st: Store, cmd: Command, i: nat)
    requires cmd.Approve? && Inv(st) && OutcomeOf(st, cmd).Changes? && i < |st.rows|
    ensures Approvable(st, cmd)
    ensures Next(st, cmd).resources == st.resources && |Next(st, cmd).rows| == |st.rows|
    ensures var t, b, after := Target(st, cmd), st.rows[i], Next(st, cmd).rows[i];
            after ==
              if b.id == cmd.booking then
                b.(status := Approved, updatedAt := cmd.now,
                   history := b.history + [StatusChange(Pending, Approved, cmd.actor, Owner, cmd.now, None)])
              else if b.resource == t.resource && b.status.Pending? && ShareAMinute(b.slot, t.slot) then
                b.(status := Rejected, updatedAt := cmd.now,
                   history := b.history
                     + [StatusChange(Pending, Rejected, cmd.actor, Owner, cmd.now, Some(AUTO_REASON))])
              else b
  {
    var t := Target(st, cmd);
    assert st.rows[i].id == t.id ==> st.rows[i] == t;
    OverlapIsASharedMinute(st.rows[i].slot, t.slot);
  }

  // Each loser is told once that it lost, after the winner has been told, and nobody else is.
  lemma ApproveNotices(st: Store, cmd: Command)
    requires cmd.Approve? && Inv(st) && OutcomeOf(st, cmd).Changes?
    ensures var t := Target(st, cmd); var sent := Next(st, cmd).log[|st.log|..];
            exists losers: seq<BookingData> ::
              && sent == [Notice(t.customer, BookingApproved)] + NoticesTo(losers, BookingRejected)
              && UniqueIds(losers)
              && forall b :: b in losers <==> b in st.rows && Matches(RivalsOf(t), b)
  {
    var t := Target(st, cmd);
    var losers := List(st.rows, RivalsOf(t));
    ListIsExact(st.rows, RivalsOf(t));
    ListHasUniqueIds(st.rows, RivalsOf(t));
    assert Next(st, cmd).log[|st.log|..] == [Notice(t.customer, BookingApproved)] + NoticesTo(losers, BookingRejected);
  }

  // ---------- stores where no PENDING overlaps an APPROVED ----------

  ghost predicate Contested(a: BookingData, b: BookingData) {
    a.resource == b.resource && a.status.Pending? && b.status.Approved? && Overlaps(a.slot, b.slot)
  }

  ghost predicate Clean(rows: seq<BookingData>) {
    forall i, j :: 0 <= i < |rows| && 0 <= j < |rows| ==> !Contested(rows[i], rows[j])
  }

  lemma ApplyKeepsClean(ch: Change, rows: seq<BookingData>)
    requires UniqueIds(rows) && Clean(rows)
    requires ch.ApproveOne? ==> ch.target in rows
    ensures Clean(Apply(ch, rows))
  {
    var after := Apply(ch, rows);
    forall i, j | 0 <= i < |after| && 0 <= j < |after| ensures !Contested(after[i], after[j]) {
      RowFollows(ch, rows[i]);
      RowFollows(ch, rows[j]);
      assert !Contested(rows[i], rows[j]);
    }
  }

  lemma CleanTargetIsNotBlocked(rows: seq<BookingData>, t: BookingData)
    requires Clean(rows) && t in rows && t.status.Pending?
    ensures !Blocked(rows, t)
  {
    var i :| 0 <= i < |rows| && rows[i] == t;
    forall j | 0 <= j < |rows| ensures !BlocksApproval(t, rows[j]) {
      assert !Contested(rows[i], rows[j]);
    }
  }

  // From a clean store an otherwise valid Approve always succeeds and leaves a clean store.
  lemma ApproveFromCleanSucceeds(st: Store, cmd: Command)
    requires cmd.Approve? && Inv(st) && Clean(st.rows) && Approvable(st, cmd)
    ensures OutcomeOf(st, cmd).Changes? && Clean(Next(st, cmd).rows)
  {
    var t := Target(st, cmd);
    CleanTargetIsNotBlocked(st.rows, t);
    ApplyKeepsClean(ApproveOne(t, cmd.actor, cmd.now), st.rows);
  }

  // No command but Request can make a clean store unclean.
  lemma OnlyRequestSoils(st: Store, cmd: Command)
    requires Inv(st) && Clean(st.rows) && !cmd.Request?
    ensures Clean(Next(st, cmd).rows)
  {
    match OutcomeOf(st, cmd)
    case Changes(ch, _, _) => ApplyKeepsClean(ch, st.rows);
    case Deletes(_, _, ch, _) => ApplyKeepsClean(ch, st.rows);
    case _ =>
  }

  // A Request that is taken leaves a clean store clean exactly when its range overlaps no APPROVED
  // booking of the resource. The handler does not check this.
  lemma RequestSoilsExactlyOverApproved(st: Store, cmd: Command)
    requires cmd.Request? && Inv(st) && Clean(st.rows) && OutcomeOf(st, cmd).Inserts?
    ensures Clean(Next(st, cmd).rows)
       <==> !OverlapsApproved(st.rows, cmd.resource, OutcomeOf(st, cmd).row.slot)
  {
    var row := OutcomeOf(st, cmd).row;
    var after := Next(st, cmd).rows;
    assert after == st.rows + [row];
    if OverlapsApproved(st.rows, cmd.resource, row.slot) {
      var j :| 0 <= j < |st.rows| && st.rows[j].resource == cmd.resource && st.rows[j].status.Approved?
            && Overlaps(st.rows[j].slot, row.slot);
      assert Contested(after[|st.rows|], after[j]);
    } else {
      forall i, j | 0 <= i < |after| && 0 <= j < |after| ensures !Contested(after[i], after[j]) {
        assert i < |st.rows| && j < |st.rows| ==> !Contested(st.rows[i], st.rows[j]);
      }
    }
  }

  // ---------- APPROVED bookings without the constraint ----------

  // From a store without overlapping APPROVED bookings, a step makes two of them overlap exactly when
  // it is an otherwise valid Approve of an overlapping target and no constraint stops it.
  lemma ApprovedStayDisjointExactly(st: Store, cmd: Command)
    requires Inv(st) && NoApprovedOverlap(st.rows)
    ensures NoApprovedOverlap(Next(st, cmd).rows) <==>
      !(cmd.Approve? && Approvable(st, cmd) && !st.constrained
        && OverlapsApproved(st.rows, Target(st, cmd).resource, Target(st, cmd).slot))
  {
    if cmd.Approve? {
      ApprovesExactly(st, cmd);
      if OutcomeOf(st, cmd).Changes? {
        ApproveOverlapsExactly(st, cmd);
        BlockedByApproved(st.rows, Target(st, cmd));
      }
    } else {
      OthersKeepApprovedDisjoint(st, OutcomeOf(st, cmd));
    }
  }

  lemma ApprovesExactly(st: Store, cmd: Command)
    requires cmd.Approve?
    ensures OutcomeOf(st, cmd).Changes?
       <==> Approvable(st, cmd) && !(st.constrained && Blocked(st.rows, Target(st, cmd)))
    ensures OutcomeOf(st, cmd).Changes? || Next(st, cmd) == st
  {
  }

  lemma OthersKeepApprovedDisjoint(st: Store, o: Outcome)
    requires UniqueIds(st.rows) && NoApprovedOverlap(st.rows)
    requires (o.Changes? || o.Deletes?) ==> !o.change.ApproveOne?
    requires o.Inserts? ==> o.row.status.Pending?
    ensures NoApprovedOverlap(Commit(st, o).rows)
  {
    if o.Changes? || o.Deletes? {
      ApplyKeepsApprovedDisjoint(o.change, st.rows);
    }
  }

  lemma ApproveOverlapsExactly(st: Store, cmd: Command)
    requires cmd.Approve? && Inv(st) && NoApprovedOverlap(st.rows) && OutcomeOf(st, cmd).Changes?
    ensures NoApprovedOverlap(Next(st, cmd).rows)
       <==> !OverlapsApproved(st.rows, Target(st, cmd).resource, Target(st, cmd).slot)
  {
    var t, at := Target(st, cmd), Find(st.rows, cmd.booking).value;
    var ch := ApproveOne(t, cmd.actor, cmd.now);
    if OverlapsApproved(st.rows, t.resource, t.slot) {
      NewApprovedOverlap(ch, st.rows, at);
    } else {
      BlockedByApproved(st.rows, t);
      ApplyKeepsApprovedDisjoint(ch, st.rows);
    }
  }

  lemma NewApprovedOverlap(ch: Change, rows: seq<BookingData>, at: nat)
    requires ch.ApproveOne? && at < |rows| && rows[at] == ch.target && ch.target.status.Pending?
    requires OverlapsApproved(rows, ch.target.resource, ch.target.slot)
    ensures !NoApprovedOverlap(Apply(ch, rows))
  {
    var after := Apply(ch, rows);
    var j :| 0 <= j < |rows| && rows[j].resource == ch.target.resource && rows[j].status.Approved?
          && Overlaps(rows[j].slot, ch.target.slot);
    RowFollows(ch, rows[j]);
    RowFollows(ch, rows[at]);
    assert BothApproved(after[at], after[j]) && Overlaps(after[at].slot, after[j].slot);
    assert BothApproved(after[j], after[at]) && Overlaps(after[j].slot, after[at].slot);
  }

  // ---------- runs without such requests ----------

  ghost predicate TakenOverApproved(st: Store, cmd: Command) {
    cmd.Request? && OutcomeOf(st, cmd).Inserts?
    && OverlapsApproved(st.rows, cmd.resource, OutcomeOf(st, cmd).row.slot)
  }

  // No request of the run is taken over an APPROVED booking.
  ghost predicate Careful(st: Store, cmds: seq<Command>)
    decreases |cmds|
  {
    cmds == [] || (!TakenOverApproved(st, cmds[0]) && Careful(Next(st, cmds[0]), cmds[1..]))
  }

  ghost predicate CleanThroughout(st: Store, cmds: seq<Command>)
    decreases |cmds|
  {
    Clean(st.rows) && (cmds == [] || CleanThroughout(Next(st, cmds[0]), cmds[1..]))
  }

  // A run stays clean exactly when it is careful, and then no two APPROVED bookings of one resource
  // ever overlap, with the constraint or without it.
  lemma {:induction false} CarefulRunsStayClean(st: Store, cmds: seq<Command>)
    requires Inv(st) && Clean(st.rows) && NoApprovedOverlap(st.rows)
    ensures CleanThroughout(st, cmds) <==> Careful(st, cmds)
    ensures Careful(st, cmds) ==> NoApprovedOverlap(Exec(st, cmds).rows)
    decreases |cmds|
  {
    if cmds != [] {
      var cmd, next := cmds[0], Next(st, cmds[0]);
      StepKeepsInv(st, cmd);
      CleanStepExactly(st, cmd);
      if Clean(next.rows) {
        CarefulRunsStayClean(next, cmds[1..]);
      }
    }
  }

  lemma CleanStepExactly(st: Store, cmd: Command)
    requires Inv(st) && Clean(st.rows) && NoApprovedOverlap(st.rows)
    ensures Clean(Next(st, cmd).rows) <==> !TakenOverApproved(st, cmd)
    ensures NoApprovedOverlap(Next(st, cmd).rows)
  {
    ApprovedStayDisjointExactly(st, cmd);
    if cmd.Approve? && Approvable(st, cmd) {
      CleanTargetIsNotBlocked(st.rows, Target(st, cmd));
      BlockedByApproved(st.rows, Target(st, cmd));
    }
    if !cmd.Request? {
      OnlyRequestSoils(st, cmd);
    } else if OutcomeOf(st, cmd).Inserts? {
      RequestSoilsExactlyOverApproved(st, cmd);
    }
  }

  // ---------- runs ----------

  lemma {:induction false} ExecThen(st: Store, cmds: seq<Command>, cmd: Command)
    ensures Exec(st, cmds + [cmd]) == Next(Exec(st, cmds), cmd)
    decreases |cmds|
  {
    if cmds == [] {
      assert ([] + [cmd])[1..] == [];
    } else {
      assert (cmds + [cmd])[1..] == cmds[1..] + [cmd];
      ExecThen(Next(st, cmds[0]), cmds[1..], cmd);
    }
  }

  lemma CommitFollows(st: Store, o: Outcome)
    ensures |st.rows| <= |Commit(st, o).rows| <= |st.rows| + 1
    ensures forall i :: 0 <= i < |st.rows| ==> Follows(st.rows[i], Commit(st, o).rows[i])
  {
    match o
    case Changes(ch, _, _) => ApplyKeepsRowFacts(ch, st.rows);
    case Deletes(_, _, ch, _) => ApplyKeepsRowFacts(ch, st.rows);
    case _ =>
  }

  // What any one step may do to the rows: later versions of the old ones, then at most one new one.
  lemma StepFollows(st: Store, cmd: Command)
    ensures |st.rows| <= |Next(st, cmd).rows| <= |st.rows| + 1
    ensures forall i :: 0 <= i < |st.rows| ==> Follows(st.rows[i], Next(st, cmd).rows[i])
  {
    CommitFollows(st, OutcomeOf(st, cmd));
  }

  lemma FollowsIsTransitive(a: BookingData, b: BookingData, c: BookingData)
    requires Follows(a, b) && Follows(b, c)
    ensures Follows(a, c)
  {
  }

  // Over a whole run a booking keeps its identity, slot and price, its history only grows, and its
  // rank strictly falls whenever it changes at all.
  lemma {:induction false} RunFollows(st: Store, cmds: seq<Command>)
    ensures |st.rows| <= |Exec(st, cmds).rows|
    ensures forall i :: 0 <= i < |st.rows| ==> Follows(st.rows[i], Exec(st, cmds).rows[i])
    decreases |cmds|
  {
    if cmds != [] {
      var next := Next(st, cmds[0]);
      StepFollows(st, cmds[0]);
      RunFollows(next, cmds[1..]);
      forall i | 0 <= i < |st.rows| ensures Follows(st.rows[i], Exec(st, cmds).rows[i]) {
        FollowsIsTransitive(st.rows[i], next.rows[i], Exec(st, cmds).rows[i]);
      }
    }
  }

  // In every reachable store each history is a valid chain of at most two changes.
  lemma ReachableHistories(constrained: bool, cmds: seq<Command>, i: nat)
    requires i < |Exec(Empty(constrained), cmds).rows|
    ensures var b := Exec(Empty(constrained), cmds).rows[i];
            ValidHistory(b) && |b.history| + Rank(b.status) <= 2
  {
    EveryRunKeepsInv(constrained, cmds);
    HistoryIsShort(Exec(Empty(constrained), cmds).rows[i]);
  }

  ghost predicate Deleted(st: Store, rid: int, at: int) {
    rid in st.resources && st.resources[rid].deletedAt == Some(at)
  }

  lemma DeletedIsFinal(st: Store, cmd: Command, rid: int, at: int)
    requires Deleted(st, rid, at)
    ensures Deleted(Next(st, cmd), rid, at)
    ensures forall i :: |st.rows| <= i < |Next(st, cmd).rows| ==> Next(st, cmd).rows[i].resource != rid
  {
    var o := OutcomeOf(st, cmd);
    assert o.Inserts? ==> o.row.resource != rid;
    assert o.Deletes? || o.Saves? ==> o.resource != rid;
    CommitSparesDeleted(st, o, rid, at);
  }

  lemma CommitSparesDeleted(st: Store, o: Outcome, rid: int, at: int)
    requires Deleted(st, rid, at)
    requires o.Inserts? ==> o.row.resource != rid
    requires o.Deletes? || o.Saves? ==> o.resource != rid
    ensures Deleted(Commit(st, o), rid, at)
    ensures forall i :: |st.rows| <= i < |Commit(st, o).rows| ==> Commit(st, o).rows[i].resource != rid
  {
  }

  // Once a resource is deleted, every later store keeps its deletion time, has no PENDING booking of
  // it, no APPROVED one that starts at or after the deletion, and no booking of it that was not there.
  lemma {:induction false} DeletedStaysQuiet(st: Store, cmds: seq<Command>, rid: int, at: int)
    requires Inv(st) && Deleted(st, rid, at)
    ensures Deleted(Exec(st, cmds), rid, at)
    ensures forall b :: b in Exec(st, cmds).rows && b.resource == rid ==>
              !b.status.Pending? && (b.status.Approved? ==> b.slot.start < at)
    ensures forall i :: |st.rows| <= i < |Exec(st, cmds).rows| ==> Exec(st, cmds).rows[i].resource != rid
    decreases |cmds|
  {
    if cmds == [] {
      forall b | b in st.rows && b.resource == rid
        ensures !b.status.Pending? && (b.status.Approved? ==> b.slot.start < at)
      {
        var i :| 0 <= i < |st.rows| && st.rows[i] == b;
        assert Quiet(st.resources[rid], st.rows[i]);
      }
    } else {
      var next := Next(st, cmds[0]);
      StepKeepsInv(st, cmds[0]);
      DeletedIsFinal(st, cmds[0], rid, at);
      StepFollows(st, cmds[0]);
      DeletedStaysQuiet(next, cmds[1..], rid, at);
      RunFollows(next, cmds[1..]);
    }
  }

  // The two safety theorems in the words of the rows themselves, for every reachable store.
  lemma ReachableBookingsNeverCollide(constrained: bool, cmds: seq<Command>, i: nat, j: nat, t: int)
    requires i < |Exec(Empty(constrained), cmds).rows| && j < |Exec(Empty(constrained), cmds).rows|
    ensures var a, b := Exec(Empty(constrained), cmds).rows[i], Exec(Empty(constrained), cmds).rows[j];
            i != j && a.resource == b.resource && Covers(a.slot, t) && Covers(b.slot, t) ==>
              && (constrained ==> !(a.status.Approved? && b.status.Approved?))
              && (a.customer == b.customer ==> !(IsActive(a.status) && IsActive(b.status)))
  {
    EveryRunKeepsInv(constrained, cmds);
    ConstraintIsFixed(Empty(constrained), cmds);
    var rows := Exec(Empty(constrained), cmds).rows;
    if i < j {
      OverlapIsASharedMinute(rows[i].slot, rows[j].slot);
    } else if j < i {
      OverlapIsASharedMinute(rows[j].slot, rows[i].slot);
    }
  }

  lemma {:induction false} ConstraintIsFixed(st: Store, cmds: seq<Command>)
    ensures Exec(st, cmds).constrained == st.constrained
    decreases |cmds|
  {
    if cmds != [] {
      ConstraintIsFixed(Next(st, cmds[0]), cmds[1..]);
    }
  }

  // ---------- a request that is taken ----------

  // A request that passes every gate.
  lemma TakenIf(st: Store, cmd: Command, slot: DateTimeRange, total: Money)
    requires cmd.Request? && cmd.start == slot.start && cmd.end == slot.end && cmd.now < slot.start
    requires cmd.resource in st.resources && NoteFits(cmd.note) && cmd.operational
    requires var res := st.resources[cmd.resource];
             && res.deletedAt.None? && res.published && Grid.Accepts(res.slot, res.hours, res.off, slot)
             && total == Walk(Tariff(res.rules, res.base, res.off), res.slot, slot.start, slot.end)
    requires List(st.rows, ActiveOf(cmd.actor, cmd.resource, slot)) == [] && Find(st.rows, cmd.newId) == None
    ensures RequestOutcome(st, cmd) == Inserts(
              BookingData(cmd.newId, cmd.resource, cmd.actor, slot, total, KeptNote(cmd.note),
                          Pending, [], cmd.now, cmd.now),
              [Notice(st.resources[cmd.resource].owner, BookingRequested)])
  {
  }

  // The new booking starts in the future, lies in one local day inside the operating hours, and its
  // price times the slot length is the sum of the tariff over its minutes.
  lemma TakenRequestIsSound(st: Store, cmd: Command)
    requires cmd.Request? && OutcomeOf(st, cmd).Inserts?
    ensures cmd.resource in st.resources
    ensures var res, b := st.resources[cmd.resource], OutcomeOf(st, cmd).row;
            && cmd.now < b.slot.start
            && Grid.OpenThroughout(res.hours, b.slot.start + res.off, b.slot.end + res.off)
            && (b.slot.start + res.off) / 1440 == (b.slot.end + res.off) / 1440
            && res.slot * b.price == Walk(Tariff(res.rules, res.base, res.off), 1, b.slot.start, b.slot.end)
  {
    var res, b := st.resources[cmd.resource], OutcomeOf(st, cmd).row;
    Grid.AcceptsMeansEveryMinuteOpen(res.slot, res.hours, res.off, b.slot);
    Grid.AcceptedStaysInOneDay(res.slot, res.hours, res.off, b.slot);
    GridRestartsAtMidnight(res.slot, b.slot.start + res.off);
    PriceRefinesMinuteTariff(res.slot, res.rules, res.base, res.off, b.slot.start, b.slot.end);
  }

  // The whole row that a taken request stores, and the one notice it sends.
  lemma TakenRow(st: Store, cmd: Command)
    requires cmd.Request? && OutcomeOf(st, cmd).Inserts?
    ensures var row := OutcomeOf(st, cmd).row;
            && row == BookingData(cmd.newId, cmd.resource, cmd.actor, DateTimeRange(cmd.start, cmd.end), row.price,
                                  KeptNote(cmd.note), Pending, [], cmd.now, cmd.now)
            && cmd.resource in st.resources
            && Next(st, cmd).log == st.log + [Notice(st.resources[cmd.resource].owner, BookingRequested)]
  {
  }

  // It is made of whole slots of its resource's grid, and its price is the walk over them.
  lemma TakenIsOnGrid(st: Store, cmd: Command)
    requires cmd.Request? && OutcomeOf(st, cmd).Inserts?
    ensures cmd.start < cmd.end && cmd.resource in st.resources
    ensures var res := st.resources[cmd.resource];
            && OnGrid(res.slot, cmd.start + res.off) && (cmd.end - cmd.start) % res.slot == 0
            && OutcomeOf(st, cmd).row.price == Walk(Tariff(res.rules, res.base, res.off), res.slot, cmd.start, cmd.end)
  {
    var res := st.resources[cmd.resource];
    GridRestartsAtMidnight(res.slot, cmd.start + res.off);
  }

  // Each minute of [a, b) is priced by what is in force there.
  ghost predicate PricesInForce(res: GoodResource, a: int, b: int, prices: int -> Money) {
    forall t :: a <= t < b ==> InForce(res.rules, res.base, t + res.off, prices(t))
  }

  // Its price times the slot length is the sum, over its minutes, of the prices in force.
  lemma TakenRequestPaysPricesInForce(st: Store, cmd: Command, prices: int -> Money)
    requires cmd.Request? && OutcomeOf(st, cmd).Inserts? && cmd.resource in st.resources
    requires PricesInForce(st.resources[cmd.resource], cmd.start, cmd.end, prices)
    ensures st.resources[cmd.resource].slot * OutcomeOf(st, cmd).row.price == Walk(prices, 1, cmd.start, cmd.end)
  {
    TakenIsOnGrid(st, cmd);
    SlotsPayPricesInForce(st.resources[cmd.resource], cmd.start, cmd.end, OutcomeOf(st, cmd).row.price, prices);
  }

  lemma SlotsPayPricesInForce(res: GoodResource, a: int, b: int, total: int, prices: int -> Money)
    requires a < b && OnGrid(res.slot, a + res.off) && (b - a) % res.slot == 0 && PricesInForce(res, a, b, prices)
    requires total == Walk(Tariff(res.rules, res.base, res.off), res.slot, a, b)
    ensures res.slot * total == Walk(prices, 1, a, b)
  {
    PriceIsSumOfPricesInForce(res.slot, res.rules, res.base, res.off, a, b, prices);
  }

  // Its price is the sum of the prices that an agenda of any enclosing range on the grid shows for the
  // slots it covers, every one of which that agenda lists.
  lemma TakenRequestCostsItsListedSlots(
      st: Store, cmd: Command, v: Grid.AgendaView, lo: int, hi: int, out: seq<Grid.AgendaSlot>)
    requires cmd.Request? && OutcomeOf(st, cmd).Inserts? && v.res == st.resources[cmd.resource]
    requires OnGrid(v.res.slot, lo + v.res.off) && Grid.IsAgenda(v, lo, hi, out)
    requires lo <= cmd.start && cmd.end <= hi
    ensures Grid.AllCellsListed(v, out, OutcomeOf(st, cmd).row.slot)
    ensures OutcomeOf(st, cmd).row.price == Walk(Grid.ListedPrice(out), v.res.slot, cmd.start, cmd.end)
  {
    var slot := OutcomeOf(st, cmd).row.slot;
    Grid.RequestIsAUnionOfListedSlots(v, lo, hi, out, slot);
    Grid.CoveredCellsAreListed(v, out, slot);
    Grid.TotalIsSumOfListedPrices(v, lo, hi, out, slot.start, slot.end);
  }
}
