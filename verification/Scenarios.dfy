/** Concrete runs at which a property fails, each from the empty store. */
module Scenarios {
  import opened Calendar
  import opened Schedules
  import opened Pricing
  import opened Resources
  import opened Bookings
  import opened Protocol
  import opened Runs
  import AgendaFilter
  import ApproveRace
  import BlockLock
  import RequestRace
  import Effects
  import Grid

  // ---------- a court that is open on Mondays from 8 to 20 ----------

  const MONDAYS := WeeklySchedule([TimeWindow(480, 1200)], [], [], [], [], [], [])

  predicate CourtSlot(s: int) {
    s == 30 || s == 60
  }

  function Court(s: int): GoodResource
    requires CourtSlot(s)
  {
    CourtIsGood(s);
    ResourceData(5, 0, s, MONDAYS, 100, 24, [], map[], [], true, None)
  }

  lemma CourtIsGood(s: int)
    requires CourtSlot(s)
    ensures ResourceOk(ResourceData(5, 0, s, MONDAYS, 100, 24, [], map[], [], true, None))
  {
    forall wd ensures DayOk(s, MONDAYS.ForWeekday(wd)) {
      assert wd == Monday || MONDAYS.ForWeekday(wd) == [];
    }
  }

  // One or two slots of the court's first day.
  predicate CourtHours(s: int, n: int, a: int) {
    CourtSlot(s) && 1 <= n <= 2 && 480 <= a <= 1200 - n * s && OnGrid(s, a)
  }

  lemma OpenOnMonday(t: int)
    requires 480 <= t < 1200
    ensures OpenAt(MONDAYS, t)
  {
    assert WeekdayOf(t) == Monday;
    assert MONDAYS.ForWeekday(Monday)[0] == TimeWindow(480, 1200);
  }

  lemma CourtTakes(s: int, n: int, a: int)
    requires CourtHours(s, n, a)
    ensures Grid.Accepts(s, MONDAYS, 0, DateTimeRange(a, a + n * s))
    ensures Walk(Tariff([], 100, 0), s, a, a + n * s) == 100 * n
  {
    forall t | a <= t < a + n * s ensures OpenAt(MONDAYS, t) {
      OpenOnMonday(t);
    }
    SameRemainder(s, 0, n);
    assert TimeOfDay(a) == a;
    var f := Tariff([], 100, 0);
    assert f(a) == 100 && f(a + s) == 100;
    assert Walk(f, s, a + n * s, a + n * s) == 0;
    assert n == 2 ==> Walk(f, s, a + s, a + n * s) == 100;
  }

  // ---------- commands and the stores they lead to ----------

  const ASKED := Notice(5, BookingRequested)

  function CourtStore(k: bool, s: int, rows: seq<BookingData>, log: seq<Notice>): Store
    requires CourtSlot(s)
  {
    Store(k, map[1 := Court(s)], rows, log)
  }

  function Ask(s: int, n: int, id: int, customer: int, a: int): Command {
    Request(customer, 1, a, a + n * s, None, 0, id, true)
  }

  function Yes(id: int): Command {
    Approve(5, id, 0, true)
  }

  function Asked(s: int, n: int, id: int, customer: int, a: int): BookingData
    requires CourtSlot(s) && 1 <= n <= 2
  {
    BookingData(id, 1, customer, DateTimeRange(a, a + n * s), 100 * n, None, Pending, [], 0, 0)
  }

  function Winner(s: int, a: int): BookingData
    requires CourtSlot(s)
  {
    Asked(s, 1, 1, 7, a).(status := Approved, history := [StatusChange(Pending, Approved, 5, Owner, 0, None)])
  }

  lemma AfterAdd(k: bool, s: int)
    requires CourtSlot(s)
    ensures Next(Empty(k), AddResource(1, Court(s))) == CourtStore(k, s, [], [])
  {
  }

  lemma AfterAsk(k: bool, s: int, n: int, rows: seq<BookingData>, log: seq<Notice>, id: int, customer: int, a: int)
    requires CourtHours(s, n, a)
    requires forall b :: b in rows ==> b.id != id && b.customer != customer
    ensures RequestOutcome(CourtStore(k, s, rows, log), Ask(s, n, id, customer, a)).Inserts?
    ensures Next(CourtStore(k, s, rows, log), Ask(s, n, id, customer, a))
         == CourtStore(k, s, rows + [Asked(s, n, id, customer, a)], log + [ASKED])
  {
    var st, cmd := CourtStore(k, s, rows, log), Ask(s, n, id, customer, a);
    CourtTakes(s, n, a);
    NothingOf(rows, ActiveOf(customer, 1, DateTimeRange(a, a + n * s)));
    TakenIf(st, cmd, DateTimeRange(a, a + n * s), 100 * n);
  }

  lemma {:induction false} NothingOf(rows: seq<BookingData>, q: Query)
    requires forall b :: b in rows ==> !Matches(q, b)
    ensures List(rows, q) == []
  {
    if rows != [] {
      NothingOf(rows[1..], q);
    }
  }

  lemma AfterFirstYes(k: bool, s: int, log: seq<Notice>, a: int)
    requires CourtHours(s, 1, a)
    ensures Next(CourtStore(k, s, [Asked(s, 1, 1, 7, a)], log), Yes(1))
         == CourtStore(k, s, [Winner(s, a)], log + [Notice(7, BookingApproved)])
  {
    var b := Asked(s, 1, 1, 7, a);
    var st := CourtStore(k, s, [b], log);
    assert !Blocked([b], b);
    assert List([b][1..], RivalsOf(b)) == [];
    TransitionExtendsHistory(b, Approved, 5, Owner, 0, None);
    assert [] + [StatusChange(Pending, Approved, 5, Owner, 0, None)] == Winner(s, a).history;
    assert RowAfter(ApproveOne(b, 5, 0), b) == Winner(s, a);
    assert Apply(ApproveOne(b, 5, 0), [b]) == [Winner(s, a)];
    assert OutcomeOf(st, Yes(1)) == Changes(ApproveOne(b, 5, 0), [Notice(7, BookingApproved)] + [], 1);
  }

  function AskedRun(s: int, a: int): seq<Command>
    requires CourtSlot(s)
  {
    [AddResource(1, Court(s)), Ask(s, 1, 1, 7, a)]
  }

  lemma AfterOneAsk(k: bool, s: int, a: int)
    requires CourtHours(s, 1, a)
    ensures Exec(Empty(k), AskedRun(s, a)) == CourtStore(k, s, [Asked(s, 1, 1, 7, a)], [ASKED])
  {
    var add, ask := AddResource(1, Court(s)), Ask(s, 1, 1, 7, a);
    AfterAdd(k, s);
    AfterAsk(k, s, 1, [], [], 1, 7, a);
    assert [] + [Asked(s, 1, 1, 7, a)] == [Asked(s, 1, 1, 7, a)] && [] + [ASKED] == [ASKED];
    ExecThen(Empty(k), [], add);
    ExecThen(Empty(k), [add], ask);
    assert [] + [add] == [add] && [add] + [ask] == AskedRun(s, a);
  }

  function WonRun(s: int, a: int): seq<Command>
    requires CourtSlot(s)
  {
    AskedRun(s, a) + [Yes(1)]
  }

  const WON_LOG := [ASKED, Notice(7, BookingApproved)]

  // Customer 7 books and is approved.
  lemma AfterWonRun(k: bool, s: int, a: int)
    requires CourtHours(s, 1, a)
    ensures Exec(Empty(k), WonRun(s, a)) == CourtStore(k, s, [Winner(s, a)], WON_LOG)
  {
    AfterOneAsk(k, s, a);
    AfterFirstYes(k, s, [ASKED], a);
    ExecThen(Empty(k), AskedRun(s, a), Yes(1));
  }

  // ---------- a PENDING booking over an APPROVED one ----------

  function ContestedRun(s: int, a: int): seq<Command>
    requires CourtSlot(s)
  {
    WonRun(s, a) + [Ask(s, 1, 2, 8, a)]
  }

  lemma AfterContestedRun(k: bool, s: int, a: int)
    requires CourtHours(s, 1, a)
    ensures Exec(Empty(k), ContestedRun(s, a))
         == CourtStore(k, s, [Winner(s, a), Asked(s, 1, 2, 8, a)], WON_LOG + [ASKED])
  {
    var w := Winner(s, a);
    AfterWonRun(k, s, a);
    AfterAsk(k, s, 1, [w], WON_LOG, 2, 8, a);
    ExecThen(Empty(k), WonRun(s, a), Ask(s, 1, 2, 8, a));
  }

  // Customer 8 may ask for the very slot that customer 7 has been granted. Approving that request runs
  // into the constraint, where there is one.
  lemma PendingOverApprovedIsReachable(s: int, a: int)
    requires CourtHours(s, 1, a)
    ensures var st := Exec(Empty(true), ContestedRun(s, a));
            !Clean(st.rows) && OutcomeOf(st, Yes(2)) == Refused(ApprovedOverlapConstraint)
  {
    var rows := [Winner(s, a), Asked(s, 1, 2, 8, a)];
    AfterContestedRun(true, s, a);
    EveryRunKeepsInv(true, ContestedRun(s, a));
    SecondIsOverFirst(s, a);
    ApproveAbortsExactlyOnOverlap(Exec(Empty(true), ContestedRun(s, a)), Yes(2));
  }

  lemma SecondIsOverFirst(s: int, a: int)
    requires CourtHours(s, 1, a)
    ensures var rows := [Winner(s, a), Asked(s, 1, 2, 8, a)];
            && !Clean(rows) && NoApprovedOverlap(rows) && Find(rows, 2) == Some(1)
            && OverlapsApproved(rows, 1, DateTimeRange(a, a + s))
  {
    var rows := [Winner(s, a), Asked(s, 1, 2, 8, a)];
    assert Contested(rows[1], rows[0]);
    assert rows[0].status.Approved? && Overlaps(rows[0].slot, DateTimeRange(a, a + s));
    assert Find(rows[1..], 2) == Some(0);
  }

  // Where there is no constraint, approving it succeeds, and two APPROVED bookings overlap.
  lemma ApprovedOverlapIsReachable(s: int, a: int)
    requires CourtHours(s, 1, a)
    ensures var st := Exec(Empty(false), ContestedRun(s, a));
            OutcomeOf(st, Yes(2)).Changes? && !NoApprovedOverlap(Next(st, Yes(2)).rows)
    ensures Exec(Empty(false), ContestedRun(s, a) + [Yes(2)]) == Next(Exec(Empty(false), ContestedRun(s, a)), Yes(2))
  {
    AfterContestedRun(false, s, a);
    EveryRunKeepsInv(false, ContestedRun(s, a));
    SecondIsOverFirst(s, a);
    ApprovedStayDisjointExactly(Exec(Empty(false), ContestedRun(s, a)), Yes(2));
    ExecThen(Empty(false), ContestedRun(s, a), Yes(2));
  }

  // ---------- an agenda that overlooks a booking ----------

  // The agenda of a range from 10:15 to 11:00 lists a slot to 11:15 as available, although a booking
  // from 11:00 on is APPROVED.
  lemma OffGridAgendaMissesABooking(k: bool, owner: bool)
    ensures var st := Exec(Empty(k), WonRun(60, 660));
            && Grid.ListsAt(Court(60), 615, 660, 615)
            && st.resources == map[1 := Court(60)]
            && Grid.SlotAt(AgendaFilter.Near(Court(60), st.rows, 1, owner, 615, 660), 615).status == Grid.Available
            && Grid.SlotAt(AgendaFilter.Whole(Court(60), st.rows, 1, owner), 615).status == Grid.Approved
  {
    AfterWonRun(k, 60, 660);
    CourtEmits(615);
    AgendaFilter.OneOverlooked(Court(60), Winner(60, 660), owner, 615, 660, 615);
  }

  function RegridRun(): seq<Command> {
    AskedRun(30, 690) + [EditResource(5, 1, Court(60))]
  }

  // A change of slot length leaves bookings off the new grid, and then even a range on the grid can
  // overlook one: half past eleven is booked by the half hour before slots become an hour long.
  lemma RegriddedAgendaMissesABooking(k: bool, owner: bool)
    ensures var st := Exec(Empty(k), RegridRun());
            && Grid.ListsAt(Court(60), 600, 690, 660)
            && st.resources == map[1 := Court(60)]
            && Grid.SlotAt(AgendaFilter.Near(Court(60), st.rows, 1, owner, 600, 690), 660).status == Grid.Available
            && Grid.SlotAt(AgendaFilter.Whole(Court(60), st.rows, 1, owner), 660).status == Grid.Pending
  {
    AfterRegrid(k);
    CourtEmits(660);
    AgendaFilter.OneOverlooked(Court(60), Asked(30, 1, 1, 7, 690), owner, 600, 690, 660);
  }

  lemma AfterRegrid(k: bool)
    ensures Exec(Empty(k), RegridRun())
         == CourtStore(k, 60, [Asked(30, 1, 1, 7, 690)], [ASKED])
  {
    AfterOneAsk(k, 30, 690);
    ExecThen(Empty(k), AskedRun(30, 690), EditResource(5, 1, Court(60)));
    assert map[1 := Court(30)][1 := Court(60)] == map[1 := Court(60)];
  }

  lemma CourtEmits(c: int)
    requires 480 <= c <= 1140
    ensures Grid.Emits(60, MONDAYS, c)
  {
    assert WeekdayOf(c) == Monday && TimeOfDay(c) == c && TimeOfDay(c + 60) == c + 60;
    assert Grid.WindowAt(MONDAYS.ForWeekday(Monday), c) == Some(TimeWindow(480, 1200));
  }

  // ---------- an expiry job that never expires ----------

  // One request for 11:00, never decided. From 11:01 on the job counts it each time it runs, as it
  // leaves the store as it was; after a committed run of the handler there would be none to count.
  lemma ExpiryJobCountsAgain(k: bool)
    ensures var st := Exec(Empty(k), AskedRun(60, 660));
            && Effects.JobCount(st, 661) == 1
            && Effects.JobCount(Next(st, Expire(661)), 661) == 0
  {
    var b := Asked(60, 1, 1, 7, 660);
    AfterOneAsk(k, 60, 660);
    var st := CourtStore(k, 60, [b], [ASKED]);
    assert List([b][1..], PendingStartingBefore(661)) == [];
    Effects.ExpireIsIdempotent(st, 661, 661);
  }

  // ---------- a lock that ends before the commit ----------

  function ChainRows(): seq<BookingData> {
    [Asked(30, 2, 1, 7, 480), Asked(30, 2, 2, 8, 510), Asked(30, 2, 3, 9, 540)]
  }

  const CHAIN_ASKS := [Ask(30, 2, 1, 7, 480), Ask(30, 2, 2, 8, 510), Ask(30, 2, 3, 9, 540)]

  // The court is added, and the first i of the three ask.
  function ChainRun(i: nat): seq<Command>
    requires i <= 3
  {
    [AddResource(1, Court(30))] + CHAIN_ASKS[..i]
  }

  // The store after the first i requests of the run.
  function ChainStore(i: nat): Store
    requires i <= 3
  {
    CourtStore(false, 30, ChainRows()[..i], [ASKED, ASKED, ASKED][..i])
  }

  lemma NextOfChain(i: nat)
    requires i < 3
    ensures Next(ChainStore(i), CHAIN_ASKS[i]) == ChainStore(i + 1)
  {
    var b, rows, log := ChainRows()[i], ChainRows()[..i], [ASKED, ASKED, ASKED][..i];
    assert forall c :: c in rows ==> c == ChainRows()[0] || c == ChainRows()[1];
    assert i < 2 ==> ChainRows()[1] !in rows;
    assert i < 1 ==> rows == [];
    AfterAsk(false, 30, 2, rows, log, b.id, b.customer, b.slot.start);
    assert rows + [b] == ChainRows()[..i + 1] && log + [ASKED] == [ASKED, ASKED, ASKED][..i + 1];
  }

  // Three customers ask for 8:00 to 9:00, 8:30 to 9:30 and 9:00 to 10:00.
  lemma {:induction false} AfterChainRun(i: nat)
    requires i <= 3
    ensures Exec(Empty(false), ChainRun(i)) == ChainStore(i)
  {
    if i == 0 {
      AfterAdd(false, 30);
      ExecThen(Empty(false), [], AddResource(1, Court(30)));
      assert [] + [AddResource(1, Court(30))] == ChainRun(0);
    } else {
      AfterChainRun(i - 1);
      NextOfChain(i - 1);
      ExecThen(Empty(false), ChainRun(i - 1), CHAIN_ASKS[i - 1]);
      assert ChainRun(i - 1) + [CHAIN_ASKS[i - 1]] == ChainRun(i);
    }
  }

  function ChainWorld(st: Store): ApproveRace.World {
    ApproveRace.World(
      st,
      [ApproveRace.Call(5, 1, 0, true, ApproveRace.Started), ApproveRace.Call(5, 2, 0, true, ApproveRace.Started),
       ApproveRace.Call(5, 3, 0, true, ApproveRace.Started)],
      map[])
  }

  lemma ChainWorldIsChain(log: seq<Notice>)
    ensures BlockLock.Chain(ChainWorld(CourtStore(false, 30, ChainRows(), log)))
  {
  }

  // The owner approves all three at once; the second and the third overlap and both end APPROVED.
  lemma BlockLockFailsFromARun(key: int -> int)
    ensures var w := ChainWorld(Exec(Empty(false), ChainRun(3)));
            !NoApprovedOverlap(ApproveRace.Run(ApproveRace.HeldInBlock, key, w, BlockLock.CHAIN_SCHEDULE).store.rows)
  {
    var st := Exec(Empty(false), ChainRun(3));
    AfterChainRun(3);
    assert ChainRows()[..3] == ChainRows();
    ChainWorldIsChain(st.log);
    BlockLock.BlockLockLetsRivalsBothBeApproved(key, ChainWorld(st));
    var rows := ApproveRace.Run(ApproveRace.HeldInBlock, key, ChainWorld(st), BlockLock.CHAIN_SCHEDULE).store.rows;
    assert BothApproved(rows[1], rows[2]) && Overlaps(rows[1].slot, rows[2].slot);
  }

  // ---------- two requests of one customer at once ----------

  function RequestCall(id: int): RequestRace.Call {
    RequestRace.Call(7, 1, 660, 720, None, 0, id, true, RequestRace.Waiting)
  }

  // Both pass the duplicate check before either is stored; customer 7 then holds the slot twice.
  lemma TwinRequestsAreBothTaken(k: bool)
    ensures var w := RequestRace.World(Exec(Empty(k), [AddResource(1, Court(60))]), [RequestCall(1), RequestCall(2)]);
            !CustomersDisjoint(RequestRace.Run(w, [0, 1, 0, 1]).store.rows)
  {
    var add := AddResource(1, Court(60));
    AfterAdd(k, 60);
    ExecThen(Empty(k), [], add);
    assert [] + [add] == [add];
    AfterAsk(k, 60, 1, [], [], 1, 7, 660);
    AfterAsk(k, 60, 1, [], [], 2, 7, 660);
    EveryRunKeepsInv(k, [add]);
    var w := RequestRace.World(CourtStore(k, 60, [], []), [RequestCall(1), RequestCall(2)]);
    assert w.calls[0].Cmd() == Ask(60, 1, 1, 7, 660) && w.calls[1].Cmd() == Ask(60, 1, 2, 7, 660);
    RequestRace.BothReadBothTaken(w, 0, 1);
  }
}
