/** Concrete inputs and the whole answer to each: which faults a validator lists under which code, and
    what the stored forms look like. */
module Examples {
  import opened Calendar
  import opened Schedules
  import opened Pricing
  import opened Resources
  import opened Codec
  import B = Bookings

  // ---------- faults by code ----------

  const DAY: seq<TimeWindow> := [TimeWindow(600, 720), TimeWindow(540, 600), TimeWindow(570, 660)]

  // 10:00-12:00, then 9:00-10:00, which starts too early, then 9:30-11:00, which overlaps the one before
  // and starts between two slots.
  lemma FaultsOfADay(code: ScheduleCode, idx: int)
    ensures FaultAt(60, DAY, code, idx) <==> (code, idx) in {(NotOrdered, 1), (NotAligned, 2), (Overlapping, 2)}
  {
  }

  const MORNINGS := WeeklySchedule([TimeWindow(480, 720)], [], [], [], [], [], [])

  const RULES: seq<PricingRule> := [
    PricingRule({Monday}, TimeWindow(480, 600), 1), PricingRule({Monday}, TimeWindow(660, 780), 2),
    PricingRule({Monday}, TimeWindow(510, 570), 3), PricingRule({Tuesday}, TimeWindow(480, 600), 4)]

  // Mondays from 8 to 12: a good rule, one that ends after closing time, one that starts between two
  // slots over the first, and one of a closed day.
  lemma FaultsOfRules(code: RuleCode, idx: int)
    ensures RuleFaultAt(60, MORNINGS, RULES, RuleError(code, idx))
       <==> (code, idx) in {(RuleOutsideHours, 1), (RuleNotAligned, 2), (RuleOverlap, 2), (RuleOutsideHours, 3)}
  {
    assert MORNINGS.ForWeekday(Monday)[0] == TimeWindow(480, 720);
    assert forall op :: op in MORNINGS.ForWeekday(Monday) ==> op == TimeWindow(480, 720);
    assert InsideHours(MORNINGS, RULES[0]) && InsideHours(MORNINGS, RULES[2]);
    assert !FitsOneWindow(RULES[1].window, MORNINGS.ForWeekday(Monday)) && Monday in RULES[1].weekdays;
    assert !FitsOneWindow(RULES[3].window, MORNINGS.ForWeekday(Tuesday)) && Tuesday in RULES[3].weekdays;
    assert Monday in RULES[2].weekdays * RULES[0].weekdays;
    assert Clash(RULES[2], RULES[0]) && !Clash(RULES[1], RULES[0]) && !Clash(RULES[2], RULES[1]);
    assert !Clash(RULES[3], RULES[0]) && !Clash(RULES[3], RULES[1]) && !Clash(RULES[3], RULES[2]);
  }

  const CUSTOMS := [CustomAttribute("size", "", ""), CustomAttribute("roof", "", ""), CustomAttribute("roof", "", "")]

  // A key of the base, a new one, and that one again.
  lemma FaultsOfCustomAttributes(code: CustomCode, idx: int)
    ensures CustomFaultAt(map["size" := "10"], CUSTOMS, CustomError(code, idx))
       <==> (code, idx) in {(ConflictsWithBase, 0), (DuplicateKey, 2)}
  {
    assert "size"[0] == 's' && "roof"[0] == 'r';
    assert CUSTOMS[1].key == CUSTOMS[2].key && CUSTOMS[0].key != CUSTOMS[1].key;
  }

  // ---------- stored forms ----------

  lemma StoredTimes()
    ensures TimeToStr(0) == "00:00" && TimeToStr(480) == "08:00" && TimeToStr(545) == "09:05"
    ensures TimeToStr(600) == "10:00" && TimeToStr(1439) == "23:59"
  {
  }

  lemma StoredDays()
    ensures DayName(Monday) == "MONDAY" && DayName(Tuesday) == "TUESDAY" && DayName(Wednesday) == "WEDNESDAY"
    ensures DayName(Thursday) == "THURSDAY" && DayName(Friday) == "FRIDAY" && DayName(Saturday) == "SATURDAY"
    ensures DayName(Sunday) == "SUNDAY"
  {
  }

  // The key of a day is its name in lower case.
  lemma KeysAreLowerCase(wd: Weekday, i: nat)
    ensures |DayKey(wd)| == |DayName(wd)|
    ensures i < |DayKey(wd)| ==> DayKey(wd)[i] as int == DayName(wd)[i] as int + 32
  {
  }

  // Open on Tuesdays from 9:05 to 10:00.
  lemma StoredSchedule()
    ensures var payload := ScheduleToJson(WeeklySchedule([], [TimeWindow(545, 600)], [], [], [], [], []));
            && "tuesday" in payload && payload["tuesday"] == [WindowJson("09:05", "10:00")]
            && "sunday" in payload && payload["sunday"] == []
  {
    var hours := WeeklySchedule([], [TimeWindow(545, 600)], [], [], [], [], []);
    StoredTimes();
    DayIsStored(hours, Tuesday, 0);
    DayIsStored(hours, Sunday, 0);
    assert WindowToJson(hours.tuesday[0]) == WindowJson("09:05", "10:00");
    assert WindowsToJson(hours.tuesday) == [WindowToJson(hours.tuesday[0])];
  }

  const THREE_DAYS := {Monday, Saturday, Friday}

  // Weekdays are listed by name, in the order of the alphabet.
  lemma StoredRule()
    ensures RuleToJson(PricingRule(THREE_DAYS, TimeWindow(480, 600), 1500))
         == RuleJson(["FRIDAY", "MONDAY", "SATURDAY"], WindowJson("08:00", "10:00"), 1500)
  {
    StoredTimes();
    StoredNames();
  }

  lemma OneDay(days: set<Weekday>, order: seq<Weekday>, rest: seq<Weekday>)
    requires order != [] && order[1..] == rest
    ensures NamesOf(days, order) == (if order[0] in days then [DayName(order[0])] else []) + NamesOf(days, rest)
  {
  }

  lemma StoredNames()
    ensures NamesOf(THREE_DAYS, ALPHABETICAL) == ["FRIDAY", "MONDAY", "SATURDAY"]
  {
    NoNames(THREE_DAYS, ALPHABETICAL[3..]);
    OneDay(THREE_DAYS, ALPHABETICAL[2..], ALPHABETICAL[3..]);
    OneDay(THREE_DAYS, ALPHABETICAL[1..], ALPHABETICAL[2..]);
    OneDay(THREE_DAYS, ALPHABETICAL, ALPHABETICAL[1..]);
  }

  lemma {:induction false} NoNames(days: set<Weekday>, order: seq<Weekday>)
    requires forall wd :: wd in order ==> wd !in days
    ensures NamesOf(days, order) == []
  {
    if order != [] {
      NoNames(days, order[1..]);
    }
  }

  lemma StoredChanges(actor: int, at: int)
    ensures ChangeToJson(B.StatusChange(B.Pending, B.Approved, actor, B.Owner, at, None))
         == ChangeJson("PENDING", "APPROVED", actor, "owner", at, None)
    ensures ChangeToJson(B.StatusChange(B.Pending, B.Expired, actor, B.Customer, at, Some("x")))
         == ChangeJson("PENDING", "EXPIRED", actor, "customer", at, Some("x"))
    ensures ChangeToJson(B.StatusChange(B.Approved, B.Cancelled, actor, B.Admin, at, None))
         == ChangeJson("APPROVED", "CANCELLED", actor, "admin", at, None)
    ensures ChangeToJson(B.StatusChange(B.Pending, B.Rejected, actor, B.Owner, at, None)).to == "REJECTED"
  {
  }
}
