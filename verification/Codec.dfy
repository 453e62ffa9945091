/** The JSON forms in which schedules, pricing rules and booking histories are stored. */
module Codec {
  import opened Calendar
  import opened Schedules
  import opened Pricing
  import B = Bookings

  // ---------- clock times ----------

  function Digit(d: int): char
    requires 0 <= d < 10
  {
    "0123456789"[d]
  }

  function DigitValue(c: char): Option<int> {
    if '0' <= c <= '9' then Some(c as int - '0' as int) else None
  }

  function TwoDigits(n: int): string
    requires 0 <= n < 100
  {
    [Digit(n / 10), Digit(n % 10)]
  }

  function TimeToStr(t: int): string
    requires 0 <= t < 1440
  {
    TwoDigits(t / 60) + ":" + TwoDigits(t % 60)
  }

  // The position of the first colon.
  function ColonAt(s: string): (r: Option<nat>)
    ensures r.Some? ==> r.value < |s|
  {
    if s == "" then None
    else if s[0] == ':' then Some(0)
    else match ColonAt(s[1..])
      case None => None
      case Some(i) => Some(i + 1)
  }

  // Decimal digits only; the empty string is no number.
  function ParseNat(s: string): Option<int> {
    if s == "" then None
    else match DigitValue(s[|s| - 1])
      case None => None
      case Some(last) =>
        if |s| == 1 then Some(last)
        else match ParseNat(s[..|s| - 1])
          case None => None
          case Some(front) => Some(10 * front + last)
  }

  // The two parts around the only colon.
  function SplitClock(s: string): Option<(string, string)> {
    match ColonAt(s)
    case None => None
    case Some(i) => if ColonAt(s[i + 1..]).Some? then None else Some((s[..i], s[i + 1..]))
  }

  // Two numbers in the range of a clock.
  function ClockOf(hours: Option<int>, minutes: Option<int>): Option<int> {
    match (hours, minutes)
    case (Some(h), Some(m)) => if 0 <= h < 24 && 0 <= m < 60 then Some(60 * h + m) else None
    case _ => None
  }

  function StrToTime(s: string): Option<int> {
    match SplitClock(s)
    case None => None
    case Some(parts) => ClockOf(ParseNat(parts.0), ParseNat(parts.1))
  }

  lemma TwoDigitsParse(n: int)
    requires 0 <= n < 100
    ensures ParseNat(TwoDigits(n)) == Some(n)
    ensures ':' !in TwoDigits(n)
  {
    var s := TwoDigits(n);
    assert DigitValue(s[1]) == Some(n % 10) && DigitValue(s[0]) == Some(n / 10);
    assert s[..1] == [s[0]];
    assert ParseNat([s[0]]) == Some(n / 10);
  }

  lemma {:induction false} NoColon(s: string)
    requires ':' !in s
    ensures ColonAt(s) == None
  {
    if s != "" {
      NoColon(s[1..]);
    }
  }

  lemma {:induction false} ColonFollows(a: string, b: string)
    requires ':' !in a
    ensures ColonAt(a + ":" + b) == Some(|a|)
  {
    if a != "" {
      ColonFollows(a[1..], b);
      assert (a + ":" + b)[1..] == a[1..] + ":" + b;
    }
  }

  lemma SplitsBack(h: string, m: string)
    requires ':' !in h && ':' !in m
    ensures SplitClock(h + ":" + m) == Some((h, m))
  {
    var s := h + ":" + m;
    ColonFollows(h, m);
    NoColon(m);
    assert s[..|h|] == h && s[|h| + 1..] == m;
  }

  lemma TimeRoundTrip(t: int)
    requires 0 <= t < 1440
    ensures StrToTime(TimeToStr(t)) == Some(t)
  {
    TwoDigitsParse(t / 60);
    TwoDigitsParse(t % 60);
    SplitsBack(TwoDigits(t / 60), TwoDigits(t % 60));
  }

  // Only clock times are read: hours below 24 and minutes below 60, from the two sides of the colon.
  lemma ReadTimesAreClockTimes(s: string)
    requires StrToTime(s).Some?
    ensures var parts := SplitClock(s);
            && parts.Some? && s == parts.value.0 + ":" + parts.value.1
            && 0 <= StrToTime(s).value < 1440
            && ParseNat(parts.value.0) == Some(StrToTime(s).value / 60)
            && ParseNat(parts.value.1) == Some(StrToTime(s).value % 60)
  {
    ColonIsThere(s);
  }

  lemma {:induction false} ColonIsThere(s: string)
    ensures ColonAt(s).Some? ==> s[ColonAt(s).value] == ':'
  {
    if s != "" && s[0] != ':' {
      ColonIsThere(s[1..]);
    }
  }

  // ---------- windows and schedules ----------

  datatype WindowJson = WindowJson(start: string, end: string)

  function WindowToJson(w: TimeWindow): WindowJson {
    WindowJson(TimeToStr(w.start), TimeToStr(w.end))
  }

  // Stored windows are rebuilt without checking start against end; one that fails it is no window.
  function WindowFromJson(j: WindowJson): Option<TimeWindow> {
    match (StrToTime(j.start), StrToTime(j.end))
    case (Some(a), Some(b)) => if 0 <= a < b < 1440 then Some(TimeWindow(a, b)) else None
    case _ => None
  }

  lemma WindowRoundTrip(w: TimeWindow)
    ensures WindowFromJson(WindowToJson(w)) == Some(w)
  {
    TimeRoundTrip(w.start);
    TimeRoundTrip(w.end);
  }

  function WindowsToJson(ws: seq<TimeWindow>): seq<WindowJson> {
    seq(|ws|, i requires 0 <= i < |ws| => WindowToJson(ws[i]))
  }

  function WindowsFromJson(js: seq<WindowJson>): Option<seq<TimeWindow>> {
    if forall i :: 0 <= i < |js| ==> WindowFromJson(js[i]).Some? then
      Some(seq(|js|, i requires 0 <= i < |js| => WindowFromJson(js[i]).value))
    else None
  }

  lemma WindowsRoundTrip(ws: seq<TimeWindow>)
    ensures WindowsFromJson(WindowsToJson(ws)) == Some(ws)
  {
    var js := WindowsToJson(ws);
    forall i | 0 <= i < |ws| ensures WindowFromJson(js[i]) == Some(ws[i]) {
      WindowRoundTrip(ws[i]);
    }
    assert WindowsFromJson(js).value == ws;
  }

  function DayName(wd: Weekday): string {
    match wd
    case Monday => "MONDAY"
    case Tuesday => "TUESDAY"
    case Wednesday => "WEDNESDAY"
    case Thursday => "THURSDAY"
    case Friday => "FRIDAY"
    case Saturday => "SATURDAY"
    case Sunday => "SUNDAY"
  }

  function NameIn(s: string, k: int): Option<Weekday>
    requires 0 <= k <= |ALL_WEEKDAYS|
    decreases |ALL_WEEKDAYS| - k
  {
    if k == |ALL_WEEKDAYS| then None
    else if DayName(ALL_WEEKDAYS[k]) == s then Some(ALL_WEEKDAYS[k])
    else NameIn(s, k + 1)
  }

  // The member of the weekday enumeration with this value.
  function DayFromName(s: string): Option<Weekday> {
    NameIn(s, 0)
  }

  // The first two letters tell the weekdays apart.
  lemma DayNamesDiffer(a: Weekday, b: Weekday)
    requires DayName(a) == DayName(b)
    ensures a == b
  {
    assert DayName(a)[0] == DayName(b)[0] && DayName(a)[1] == DayName(b)[1];
  }

  lemma {:induction false} NameIsFound(wd: Weekday, k: int)
    requires 0 <= k <= DayIndex(wd)
    ensures NameIn(DayName(wd), k) == Some(wd)
    decreases |ALL_WEEKDAYS| - k
  {
    if DayName(ALL_WEEKDAYS[k]) == DayName(wd) {
      DayNamesDiffer(ALL_WEEKDAYS[k], wd);
    } else {
      NameIsFound(wd, k + 1);
    }
  }

  function DayKey(wd: Weekday): string {
    match wd
    case Monday => "monday"
    case Tuesday => "tuesday"
    case Wednesday => "wednesday"
    case Thursday => "thursday"
    case Friday => "friday"
    case Saturday => "saturday"
    case Sunday => "sunday"
  }

  lemma DayKeysDiffer(a: Weekday, b: Weekday)
    requires DayKey(a) == DayKey(b)
    ensures a == b
  {
    assert DayKey(a)[0] == DayKey(b)[0] && DayKey(a)[1] == DayKey(b)[1];
  }

  // The entries of the weekdays from the k-th on.
  function DaysToJson(hours: WeeklySchedule, k: int): map<string, seq<WindowJson>>
    requires 0 <= k <= |ALL_WEEKDAYS|
    decreases |ALL_WEEKDAYS| - k
  {
    if k == |ALL_WEEKDAYS| then map[]
    else DaysToJson(hours, k + 1)[DayKey(ALL_WEEKDAYS[k]) := WindowsToJson(hours.ForWeekday(ALL_WEEKDAYS[k]))]
  }

  function ScheduleToJson(hours: WeeklySchedule): map<string, seq<WindowJson>> {
    DaysToJson(hours, 0)
  }

  function DayFromJson(payload: map<string, seq<WindowJson>>, wd: Weekday): Option<seq<TimeWindow>> {
    WindowsFromJson(if DayKey(wd) in payload then payload[DayKey(wd)] else [])
  }

  // The schedule that a stored one stands for, if each of its days can be read.
  function ReadSchedule(payload: map<string, seq<WindowJson>>): Option<WeeklySchedule> {
    if forall wd :: wd in ALL_WEEKDAYS ==> DayFromJson(payload, wd).Some? then
      Some(WeeklySchedule(
        DayFromJson(payload, Monday).value, DayFromJson(payload, Tuesday).value,
        DayFromJson(payload, Wednesday).value, DayFromJson(payload, Thursday).value,
        DayFromJson(payload, Friday).value, DayFromJson(payload, Saturday).value,
        DayFromJson(payload, Sunday).value))
    else None
  }

  /** Fills one field per weekday; an absent day is closed. */
  method ScheduleFromJson(payload: map<string, seq<WindowJson>>) returns (r: Option<WeeklySchedule>)
    ensures r == ReadSchedule(payload)
  {
    var fields: seq<seq<TimeWindow>> := [];
    for k := 0 to |ALL_WEEKDAYS|
      invariant |fields| == k
      invariant forall i :: 0 <= i < k ==> DayFromJson(payload, ALL_WEEKDAYS[i]) == Some(fields[i])
    {
      var day := DayFromJson(payload, ALL_WEEKDAYS[k]);
      if day == None {
        assert ALL_WEEKDAYS[k] in ALL_WEEKDAYS;
        return None;
      }
      fields := fields + [day.value];
    }
    var hours := WeeklySchedule(fields[0], fields[1], fields[2], fields[3], fields[4], fields[5], fields[6]);
    forall wd ensures DayFromJson(payload, wd) == Some(hours.ForWeekday(wd)) {
      FieldOfDay(fields, wd);
    }
    assert hours.ForWeekday(Monday) == hours.monday && hours.ForWeekday(Sunday) == hours.sunday;
    return Some(hours);
  }

  lemma FieldOfDay(fields: seq<seq<TimeWindow>>, wd: Weekday)
    requires |fields| == 7
    ensures WeeklySchedule(fields[0], fields[1], fields[2], fields[3], fields[4], fields[5], fields[6]).ForWeekday(wd)
         == fields[DayIndex(wd)]
    ensures ALL_WEEKDAYS[DayIndex(wd)] == wd
  {
  }

  lemma {:induction false} DayIsStored(hours: WeeklySchedule, wd: Weekday, k: int)
    requires 0 <= k <= DayIndex(wd)
    ensures var payload := DaysToJson(hours, k);
            DayKey(wd) in payload && payload[DayKey(wd)] == WindowsToJson(hours.ForWeekday(wd))
    decreases |ALL_WEEKDAYS| - k
  {
    if k < DayIndex(wd) {
      DayIsStored(hours, wd, k + 1);
      if DayKey(ALL_WEEKDAYS[k]) == DayKey(wd) {
        DayKeysDiffer(ALL_WEEKDAYS[k], wd);
      }
    }
  }

  lemma DayRoundTrip(hours: WeeklySchedule, wd: Weekday)
    ensures DayFromJson(ScheduleToJson(hours), wd) == Some(hours.ForWeekday(wd))
  {
    DayIsStored(hours, wd, 0);
    WindowsRoundTrip(hours.ForWeekday(wd));
  }

  // Every schedule reads back from the store as itself.
  lemma ScheduleRoundTrip(hours: WeeklySchedule)
    ensures ReadSchedule(ScheduleToJson(hours)) == Some(hours)
  {
    var payload := ScheduleToJson(hours);
    forall wd ensures DayFromJson(payload, wd) == Some(hours.ForWeekday(wd)) {
      DayRoundTrip(hours, wd);
    }
    ReadsAs(payload, hours);
  }

  lemma ReadsAs(payload: map<string, seq<WindowJson>>, hours: WeeklySchedule)
    requires forall wd :: DayFromJson(payload, wd) == Some(hours.ForWeekday(wd))
    ensures ReadSchedule(payload) == Some(hours)
  {
    assert forall wd :: DayFromJson(payload, wd).Some?;
  }

  // ---------- pricing rules ----------

  datatype RuleJson = RuleJson(weekdays: seq<string>, window: WindowJson, cents: int)

  const ALPHABETICAL: seq<Weekday> := [Friday, Monday, Saturday, Sunday, Thursday, Tuesday, Wednesday]

  function NamesOf(days: set<Weekday>, order: seq<Weekday>): seq<string> {
    if order == [] then []
    else (if order[0] in days then [DayName(order[0])] else []) + NamesOf(days, order[1..])
  }

  function DaysFromNames(names: seq<string>): Option<set<Weekday>> {
    if names == [] then Some({})
    else match (DayFromName(names[0]), DaysFromNames(names[1..]))
      case (Some(wd), Some(rest)) => Some({wd} + rest)
      case _ => None
  }

  ghost function Listed(days: set<Weekday>, order: seq<Weekday>): set<Weekday> {
    set wd | wd in order && wd in days
  }

  lemma {:induction false} NamesRoundTrip(days: set<Weekday>, order: seq<Weekday>)
    ensures DaysFromNames(NamesOf(days, order)) == Some(Listed(days, order))
  {
    if order == [] {
      assert Listed(days, order) == {};
    } else {
      NamesRoundTrip(days, order[1..]);
      NameIsFound(order[0], 0);
      var rest := NamesOf(days, order[1..]);
      if order[0] in days {
        assert NamesOf(days, order)[1..] == rest;
        assert Listed(days, order) == {order[0]} + Listed(days, order[1..]);
      } else {
        assert NamesOf(days, order) == rest;
        assert Listed(days, order) == Listed(days, order[1..]);
      }
    }
  }

  function RuleToJson(rule: PricingRule): RuleJson {
    RuleJson(NamesOf(rule.weekdays, ALPHABETICAL), WindowToJson(rule.window), rule.price)
  }

  function RuleFromJson(j: RuleJson): Option<PricingRule> {
    match (DaysFromNames(j.weekdays), WindowFromJson(j.window))
    case (Some(days), Some(w)) =>
      if days != {} && 0 <= j.cents <= MAX_CENTS then Some(PricingRule(days, w, j.cents)) else None
    case _ => None
  }

  lemma RuleRoundTrip(rule: PricingRule)
    ensures RuleFromJson(RuleToJson(rule)) == Some(rule)
  {
    NamesRoundTrip(rule.weekdays, ALPHABETICAL);
    WindowRoundTrip(rule.window);
    forall wd: Weekday ensures wd in ALPHABETICAL {
      match wd
      case Friday => assert ALPHABETICAL[0] == wd;
      case Monday => assert ALPHABETICAL[1] == wd;
      case Saturday => assert ALPHABETICAL[2] == wd;
      case Sunday => assert ALPHABETICAL[3] == wd;
      case Thursday => assert ALPHABETICAL[4] == wd;
      case Tuesday => assert ALPHABETICAL[5] == wd;
      case Wednesday => assert ALPHABETICAL[6] == wd;
    }
    assert Listed(rule.weekdays, ALPHABETICAL) == rule.weekdays;
  }

  function RulesToJson(rules: seq<PricingRule>): seq<RuleJson> {
    seq(|rules|, i requires 0 <= i < |rules| => RuleToJson(rules[i]))
  }

  function RulesFromJson(js: seq<RuleJson>): Option<seq<PricingRule>> {
    if forall i :: 0 <= i < |js| ==> RuleFromJson(js[i]).Some? then
      Some(seq(|js|, i requires 0 <= i < |js| => RuleFromJson(js[i]).value))
    else None
  }

  // Every list of rules reads back as itself, in its order.
  lemma RulesRoundTrip(rules: seq<PricingRule>)
    ensures RulesFromJson(RulesToJson(rules)) == Some(rules)
  {
    var js := RulesToJson(rules);
    forall i | 0 <= i < |rules| ensures RuleFromJson(js[i]) == Some(rules[i]) {
      RuleRoundTrip(rules[i]);
    }
    assert RulesFromJson(js).value == rules;
  }

  // ---------- booking histories ----------

  datatype ChangeJson = ChangeJson(from: string, to: string, actor: int, role: string, at: int, reason: Option<string>)

  function StatusName(st: B.Status): string {
    match st
    case Pending => "PENDING"
    case Approved => "APPROVED"
    case Rejected => "REJECTED"
    case Cancelled => "CANCELLED"
    case Expired => "EXPIRED"
  }

  function StatusFromName(s: string): Option<B.Status> {
    if s == "PENDING" then Some(B.Pending)
    else if s == "APPROVED" then Some(B.Approved)
    else if s == "REJECTED" then Some(B.Rejected)
    else if s == "CANCELLED" then Some(B.Cancelled)
    else if s == "EXPIRED" then Some(B.Expired)
    else None
  }

  function RoleName(r: B.Role): string {
    match r
    case Admin => "admin"
    case Owner => "owner"
    case Customer => "customer"
  }

  function RoleFromName(s: string): Option<B.Role> {
    if s == "admin" then Some(B.Admin)
    else if s == "owner" then Some(B.Owner)
    else if s == "customer" then Some(B.Customer)
    else None
  }

  lemma NamesAreDistinct(st: B.Status, r: B.Role)
    ensures StatusFromName(StatusName(st)) == Some(st)
    ensures RoleFromName(RoleName(r)) == Some(r)
  {
    assert StatusName(st)[0] == (match st case Pending => 'P' case Approved => 'A' case Rejected => 'R'
                                 case Cancelled => 'C' case Expired => 'E');
    assert RoleName(r)[0] == (match r case Admin => 'a' case Owner => 'o' case Customer => 'c');
  }

  function ChangeToJson(c: B.StatusChange): ChangeJson {
    ChangeJson(StatusName(c.from), StatusName(c.to), c.actor, RoleName(c.role), c.at, c.reason)
  }

  // Reading back goes through the guarded factory, so an invalid pair or reason is lost.
  function ChangeFromJson(j: ChangeJson): Option<B.StatusChange> {
    match (StatusFromName(j.from), StatusFromName(j.to), RoleFromName(j.role))
    case (Some(from), Some(to), Some(role)) =>
      (match B.CreateChange(from, to, j.actor, role, j.at, j.reason)
       case Ok(c) => Some(c)
       case Err(_) => None)
    case _ => None
  }

  // A change survives the store exactly when the factory would have built it.
  lemma ChangeRoundTrip(c: B.StatusChange)
    ensures ChangeFromJson(ChangeToJson(c)) == Some(c) <==> B.ValidTransition(c.from, c.to) && B.ReasonFits(c.reason)
    ensures ChangeFromJson(ChangeToJson(c)).Some? ==> ChangeFromJson(ChangeToJson(c)) == Some(c)
  {
    NamesAreDistinct(c.from, c.role);
    NamesAreDistinct(c.to, c.role);
  }

  function HistoryToJson(h: seq<B.StatusChange>): seq<ChangeJson> {
    seq(|h|, i requires 0 <= i < |h| => ChangeToJson(h[i]))
  }

  function HistoryFromJson(js: seq<ChangeJson>): Option<seq<B.StatusChange>> {
    if forall i :: 0 <= i < |js| ==> ChangeFromJson(js[i]).Some? then
      Some(seq(|js|, i requires 0 <= i < |js| => ChangeFromJson(js[i]).value))
    else None
  }

  // A list of changes survives the store exactly when each of them does.
  lemma HistoryRoundTrip(h: seq<B.StatusChange>)
    ensures HistoryFromJson(HistoryToJson(h)) == Some(h)
       <==> forall i :: 0 <= i < |h| ==> B.ValidTransition(h[i].from, h[i].to) && B.ReasonFits(h[i].reason)
  {
    var js := HistoryToJson(h);
    forall i | 0 <= i < |h|
      ensures ChangeFromJson(js[i]).Some? <==> B.ValidTransition(h[i].from, h[i].to) && B.ReasonFits(h[i].reason)
      ensures ChangeFromJson(js[i]).Some? ==> ChangeFromJson(js[i]) == Some(h[i])
    {
      ChangeRoundTrip(h[i]);
    }
    if HistoryFromJson(js).Some? {
      assert HistoryFromJson(js).value == h;
      assert forall i :: 0 <= i < |h| ==> ChangeFromJson(js[i]).Some?;
    }
  }

  // Every history a booking can have survives the store.
  lemma ValidHistoryRoundTrip(b: B.BookingData)
    requires B.ValidHistory(b)
    ensures HistoryFromJson(HistoryToJson(b.history)) == Some(b.history)
  {
    forall i | 0 <= i < |b.history|
      ensures B.ValidTransition(b.history[i].from, b.history[i].to) && B.ReasonFits(b.history[i].reason)
    {
      assert B.GoodLink(b.history, i);
    }
    HistoryRoundTrip(b.history);
  }
}
