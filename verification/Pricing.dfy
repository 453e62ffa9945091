/** Pricing rules, their cross-rule validation and the price of a slot range. */
module Pricing {
  import opened Calendar
  import opened Schedules

  const MAX_CENTS := 10_000_000_000

  type Money = c: int | 0 <= c <= MAX_CENTS

  datatype RawRule = PricingRule(weekdays: set<Weekday>, window: TimeWindow, price: Money)

  type PricingRule = r: RawRule | r.weekdays != {} witness PricingRule({Monday}, TimeWindow(0, 1), 0)

  // ---------- what a good rule list is ----------

  predicate RuleMatches(rule: PricingRule, local: int) {
    WeekdayOf(local) in rule.weekdays && rule.window.start <= TimeOfDay(local) < rule.window.end
  }

  predicate FitsOneWindow(w: TimeWindow, windows: seq<TimeWindow>) {
    exists op :: op in windows && op.start <= w.start && w.end <= op.end
  }

  ghost predicate InsideHours(hours: WeeklySchedule, rule: PricingRule) {
    forall wd :: wd in rule.weekdays ==> FitsOneWindow(rule.window, hours.ForWeekday(wd))
  }

  // Every minute of the one window is a minute of the other.
  ghost predicate HoldsMinutes(op: TimeWindow, w: TimeWindow) {
    forall m: int :: w.start <= m < w.end ==> MinuteOf(op, m)
  }

  predicate MinuteOf(w: TimeWindow, m: int) {
    w.start <= m < w.end
  }

  // A rule is inside the hours exactly when on each of its days one operating window holds every minute
  // of the rule's window.
  lemma InsideHoursByTheMinute(hours: WeeklySchedule, rule: PricingRule)
    ensures InsideHours(hours, rule) <==>
      forall wd :: wd in rule.weekdays ==> exists op :: op in hours.ForWeekday(wd) && HoldsMinutes(op, rule.window)
  {
    forall op: TimeWindow
      ensures HoldsMinutes(op, rule.window) <==> op.start <= rule.window.start && rule.window.end <= op.end
    {
      if HoldsMinutes(op, rule.window) {
        assert MinuteOf(op, rule.window.start) && MinuteOf(op, rule.window.end - 1);
      }
    }
    forall wd ensures FitsOneWindow(rule.window, hours.ForWeekday(wd))
         <==> exists op :: op in hours.ForWeekday(wd) && HoldsMinutes(op, rule.window)
    {
    }
  }

  // So no good rule prices a minute at which the resource is closed.
  lemma PricedMinutesAreOpen(s: int, hours: WeeklySchedule, rules: seq<PricingRule>, rule: PricingRule, local: int)
    requires s != 0 && RulesOk(s, hours, rules) && rule in rules && RuleMatches(rule, local)
    ensures OpenAt(hours, local)
  {
    var i :| 0 <= i < |rules| && rules[i] == rule;
    assert FitsOneWindow(rule.window, hours.ForWeekday(WeekdayOf(local)));
  }

  predicate Clash(a: PricingRule, b: PricingRule) {
    a.weekdays * b.weekdays != {} && WindowsOverlap(a.window, b.window)
  }

  ghost predicate NoClash(rules: seq<PricingRule>) {
    forall i, j :: 0 <= i < j < |rules| ==> !Clash(rules[j], rules[i])
  }

  ghost predicate RulesAligned(s: int, rules: seq<PricingRule>)
    requires s != 0
  {
    forall i :: 0 <= i < |rules| ==> AlignedWindow(s, rules[i].window)
  }

  ghost predicate RulesOk(s: int, hours: WeeklySchedule, rules: seq<PricingRule>)
    requires s != 0
  {
    && RulesAligned(s, rules)
    && (forall i :: 0 <= i < |rules| ==> InsideHours(hours, rules[i]))
    && NoClash(rules)
  }

  // Two rules clash exactly when some local minute of the week is priced by both.
  lemma ClashIsASharedMinute(a: PricingRule, b: PricingRule)
    ensures Clash(a, b) <==> exists t :: RuleMatches(a, t) && RuleMatches(b, t)
  {
    if Clash(a, b) {
      var wd :| wd in a.weekdays * b.weekdays;
      var t := DayIndex(wd) * 1440 + (if a.window.start < b.window.start then b.window.start else a.window.start);
      assert t / 1440 == DayIndex(wd);
      assert WeekdayOf(t) == wd;
      assert RuleMatches(a, t) && RuleMatches(b, t);
    }
    if t :| RuleMatches(a, t) && RuleMatches(b, t) {
      assert WeekdayOf(t) in a.weekdays * b.weekdays;
    }
  }

  // ---------- what the validator reports ----------

  datatype RuleCode = RuleNotAligned | RuleOutsideHours | RuleOverlap

  datatype RuleError = RuleError(code: RuleCode, idx: int)

  ghost predicate RuleFaultAt(s: int, hours: WeeklySchedule, rules: seq<PricingRule>, e: RuleError)
    requires s != 0
  {
    0 <= e.idx < |rules| &&
    match e.code
    case RuleNotAligned => !AlignedWindow(s, rules[e.idx].window)
    case RuleOutsideHours => !InsideHours(hours, rules[e.idx])
    case RuleOverlap => exists p :: 0 <= p < e.idx && Clash(rules[e.idx], rules[p])
  }

  lemma NoFaultMeansRulesOk(s: int, hours: WeeklySchedule, rules: seq<PricingRule>)
    requires s != 0
    ensures (forall e :: !RuleFaultAt(s, hours, rules, e)) <==> RulesOk(s, hours, rules)
  {
    if forall e :: !RuleFaultAt(s, hours, rules, e) {
      forall i | 0 <= i < |rules|
        ensures AlignedWindow(s, rules[i].window) && InsideHours(hours, rules[i])
        ensures forall p :: 0 <= p < i ==> !Clash(rules[i], rules[p])
      {
        assert !RuleFaultAt(s, hours, rules, RuleError(RuleNotAligned, i));
        assert !RuleFaultAt(s, hours, rules, RuleError(RuleOutsideHours, i));
        assert !RuleFaultAt(s, hours, rules, RuleError(RuleOverlap, i));
      }
    }
  }

  /** One error per rule and kind of fault; no error exactly when the whole list is good. */
  method ValidatePricingRules(s: int, hours: WeeklySchedule, rules: seq<PricingRule>)
    returns (errors: seq<RuleError>)
    requires s != 0
    ensures forall e :: e in errors <==> RuleFaultAt(s, hours, rules, e)
    ensures errors == [] <==> RulesOk(s, hours, rules)
  {
    errors := [];
    for idx := 0 to |rules|
      invariant forall e :: e in errors <==> e.idx < idx && RuleFaultAt(s, hours, rules, e)
    {
      var rule := rules[idx];
      if rule.window.start % s != 0 || (rule.window.end - rule.window.start) % s != 0 {
        errors := errors + [RuleError(RuleNotAligned, idx)];
      }
      var contained := CheckContainment(hours, rule);
      if !contained {
        errors := errors + [RuleError(RuleOutsideHours, idx)];
      }
      var clashes := ClashesWithEarlier(rules, idx);
      if clashes {
        errors := errors + [RuleError(RuleOverlap, idx)];
      }
    }
    NoFaultMeansRulesOk(s, hours, rules);
    if errors != [] {
      assert errors[0] in errors;
    }
  }

  // The inner loop of the validator: one rule against every rule before it.
  method ClashesWithEarlier(rules: seq<PricingRule>, idx: nat) returns (clashes: bool)
    requires idx < |rules|
    ensures clashes <==> exists p :: 0 <= p < idx && Clash(rules[idx], rules[p])
  {
    var rule := rules[idx];
    for p := 0 to idx
      invariant forall q :: 0 <= q < p ==> !Clash(rule, rules[q])
    {
      var prev := rules[p];
      if rule.weekdays * prev.weekdays == {} {
        continue;
      }
      if rule.window.start < prev.window.end && prev.window.start < rule.window.end {
        return true;
      }
    }
    return false;
  }

  method CheckContainment(hours: WeeklySchedule, rule: PricingRule) returns (contained: bool)
    ensures contained <==> InsideHours(hours, rule)
    ensures contained <==>
      forall wd :: wd in rule.weekdays ==> exists op :: op in hours.ForWeekday(wd) && HoldsMinutes(op, rule.window)
  {
    InsideHoursByTheMinute(hours, rule);
    for k := 0 to |ALL_WEEKDAYS|
      invariant forall i :: 0 <= i < k && ALL_WEEKDAYS[i] in rule.weekdays
                  ==> FitsOneWindow(rule.window, hours.ForWeekday(ALL_WEEKDAYS[i]))
    {
      var wd := ALL_WEEKDAYS[k];
      if wd in rule.weekdays && !FitsOneWindow(rule.window, hours.ForWeekday(wd)) {
        return false;
      }
    }
    forall wd | wd in rule.weekdays ensures FitsOneWindow(rule.window, hours.ForWeekday(wd)) {
      assert ALL_WEEKDAYS[DayIndex(wd)] == wd;
    }
    return true;
  }

  // ---------- price of a moment and of a range ----------

  // The first rule in list order that matches.
  function FirstMatch(rules: seq<PricingRule>, local: int): Option<PricingRule> {
    if rules == [] then None
    else if RuleMatches(rules[0], local) then Some(rules[0])
    else FirstMatch(rules[1..], local)
  }

  function PriceAt(rules: seq<PricingRule>, base: Money, local: int): Money {
    match FirstMatch(rules, local)
    case Some(rule) => rule.price
    case None => base
  }

  // The price in force at each UTC minute, for a local clock that runs off minutes ahead.
  function Tariff(rules: seq<PricingRule>, base: Money, off: int): int -> Money {
    t => PriceAt(rules, base, t + off)
  }

  // The sum of f over a, a + s, a + 2s, ... before b. With s == 1 it is the sum over every minute.
  function Walk(f: int -> Money, s: int, a: int, b: int): nat
    requires s > 0
    decreases b - a
  {
    if a >= b then 0 else f(a) + Walk(f, s, a + s, b)
  }

  /** The price of a range, absent when it is more than Money can hold. Prices are looked up through
      the tariff, one slot start at a time. */
  method ComputePrice(rules: seq<PricingRule>, base: Money, off: int, s: int, slot: DateTimeRange)
    returns (price: Option<Money>)
    requires s > 0
    ensures var total := Walk(Tariff(rules, base, off), s, slot.start, slot.end);
            price == if total <= MAX_CENTS then Some(total) else None
    ensures slot.end == slot.start + s && NoClash(rules) ==>
      price.Some? && InForce(rules, base, slot.start + off, price.value)
  {
    var total := 0;
    var cursor := slot.start;
    while cursor < slot.end
      invariant total + Walk(Tariff(rules, base, off), s, cursor, slot.end)
             == Walk(Tariff(rules, base, off), s, slot.start, slot.end)
      invariant total >= 0
      decreases slot.end - cursor
    {
      var local := cursor + off;
      var matched: Option<PricingRule> := None;
      var k := 0;
      while k < |rules|
        invariant 0 <= k <= |rules|
        invariant matched == None && FirstMatch(rules[k..], local) == FirstMatch(rules, local)
      {
        assert rules[k..][1..] == rules[k + 1..];
        if WeekdayOf(local) in rules[k].weekdays {
          if rules[k].window.start <= TimeOfDay(local) < rules[k].window.end {
            matched := Some(rules[k]);
            break;
          }
        }
        k := k + 1;
      }
      assert Tariff(rules, base, off)(cursor) == PriceAt(rules, base, local);
      total := total + if matched.Some? then matched.value.price else base;
      cursor := cursor + s;
    }
    if slot.end == slot.start + s && NoClash(rules) {
      OneStepWalk(Tariff(rules, base, off), s, slot.start);
      TariffIsInForce(rules, base, off, slot.start, Tariff(rules, base, off)(slot.start));
    }
    return if total <= MAX_CENTS then Some(total) else None;
  }

  // ---------- refinement of a per-minute tariff ----------

  lemma {:induction false} FirstMatchIsInList(rules: seq<PricingRule>, local: int)
    ensures match FirstMatch(rules, local)
            case Some(rule) => rule in rules && RuleMatches(rule, local)
            case None => forall rule :: rule in rules ==> !RuleMatches(rule, local)
  {
    if rules != [] && !RuleMatches(rules[0], local) {
      FirstMatchIsInList(rules[1..], local);
    }
  }

  lemma {:induction false} PriceHoldsThroughCell(s: int, rules: seq<PricingRule>, c: int, t: int)
    requires AllowedSlot(s) && RulesAligned(s, rules) && OnGrid(s, c) && c <= t < c + s
    ensures FirstMatch(rules, t) == FirstMatch(rules, c)
  {
    if rules != [] {
      CellStaysInDay(s, c, t);
      GridRestartsAtMidnight(s, c);
      WindowHoldsWholeCells(s, rules[0].window, TimeOfDay(c), TimeOfDay(t));
      assert RulesAligned(s, rules[1..]);
      PriceHoldsThroughCell(s, rules[1..], c, t);
    }
  }

  lemma {:induction false} WalkOfConstant(f: int -> Money, a: int, n: nat, v: Money)
    requires forall t :: a <= t < a + n ==> f(t) == v
    ensures Walk(f, 1, a, a + n) == n * v
    decreases n
  {
    if n > 0 {
      WalkOfConstant(f, a + 1, n - 1, v);
      assert n * v == v + (n - 1) * v;
    }
  }

  // Prices add up over ranges that meet at a slot boundary, whatever the local clock does.
  lemma {:induction false} WalkSplits(f: int -> Money, s: int, a: int, b: int, c: int)
    requires s > 0 && a <= b <= c && (b - a) % s == 0
    ensures Walk(f, s, a, c) == Walk(f, s, a, b) + Walk(f, s, b, c)
    decreases b - a
  {
    if a < b {
      GridSteps(s, 0, b - a);
      SameRemainder(s, b - a, -1);
      assert b - (a + s) == (b - a) + s * -1;
      WalkSplits(f, s, a + s, b, c);
    }
  }

  lemma MinutesOfOneCell(s: int, rules: seq<PricingRule>, base: Money, off: int, a: int)
    requires AllowedSlot(s) && RulesAligned(s, rules) && OnGrid(s, a + off)
    ensures Walk(Tariff(rules, base, off), 1, a, a + s) == s * Tariff(rules, base, off)(a)
  {
    var f := Tariff(rules, base, off);
    forall t | a <= t < a + s ensures f(t) == f(a) {
      PriceHoldsThroughCell(s, rules, a + off, t + off);
      assert f(t) == PriceAt(rules, base, t + off);
    }
    WalkOfConstant(f, a, s, f(a));
  }

  // For a grid-aligned range of whole slots, S times the total is the sum over all minutes of the
  // price in force at that local minute.
  lemma {:induction false} PriceRefinesMinuteTariff(
      s: int, rules: seq<PricingRule>, base: Money, off: int, a: int, b: int)
    requires AllowedSlot(s) && RulesAligned(s, rules)
    requires a <= b && OnGrid(s, a + off) && (b - a) % s == 0
    ensures s * Walk(Tariff(rules, base, off), s, a, b) == Walk(Tariff(rules, base, off), 1, a, b)
    decreases b - a
  {
    if a < b {
      var f := Tariff(rules, base, off);
      NextCell(s, off, a, b);
      PriceRefinesMinuteTariff(s, rules, base, off, a + s, b);
      MinutesOfOneCell(s, rules, base, off, a);
      WalkSplits(f, 1, a, a + s, b);
      OneStep(f, s, a, b);
    }
  }

  lemma NextCell(s: int, off: int, a: int, b: int)
    requires AllowedSlot(s) && a < b && OnGrid(s, a + off) && (b - a) % s == 0
    ensures a + s <= b && OnGrid(s, a + s + off) && (b - (a + s)) % s == 0
  {
    GridSteps(s, 0, b - a);
    SameRemainder(s, b - a, -1);
    assert b - (a + s) == (b - a) + s * -1;
    GridSteps(s, a + off, a + off);
    assert a + s + off == a + off + s;
  }

  lemma OneStep(f: int -> Money, s: int, a: int, b: int)
    requires s > 0 && a < b
    ensures s * Walk(f, s, a, b) == s * f(a) + s * Walk(f, s, a + s, b)
  {
    assert Walk(f, s, a, b) == f(a) + Walk(f, s, a + s, b);
  }

  // ---------- the price in force ----------

  // What the price list says of a local minute, without naming a lookup: the price of some matching rule,
  // or the base price when no rule matches.
  ghost predicate InForce(rules: seq<PricingRule>, base: Money, local: int, price: int) {
    || (exists rule :: rule in rules && RuleMatches(rule, local) && price == rule.price)
    || (price == base && forall rule :: rule in rules ==> !RuleMatches(rule, local))
  }

  // The tariff is that price, and the only one when rules do not clash.
  lemma TariffIsInForce(rules: seq<PricingRule>, base: Money, off: int, t: int, price: int)
    requires NoClash(rules)
    ensures InForce(rules, base, t + off, price) <==> price == Tariff(rules, base, off)(t)
  {
    var local := t + off;
    FirstMatchIsInList(rules, local);
    assert Tariff(rules, base, off)(t) == PriceAt(rules, base, local);
    if rule :| rule in rules && RuleMatches(rule, local) && price == rule.price {
      var i :| 0 <= i < |rules| && rules[i] == rule;
      var j :| 0 <= j < |rules| && rules[j] == FirstMatch(rules, local).value;
      AtMostOneRuleMatches(rules, i, j, local);
    }
  }

  // One slot costs the price of the rule that matches its start, or the base price when none does.
  lemma SlotCostsItsRule(rules: seq<PricingRule>, base: Money, off: int, s: int, a: int, rule: PricingRule)
    requires s > 0 && NoClash(rules) && rule in rules && RuleMatches(rule, a + off)
    ensures Walk(Tariff(rules, base, off), s, a, a + s) == rule.price
  {
    OneStepWalk(Tariff(rules, base, off), s, a);
    TariffIsInForce(rules, base, off, a, rule.price);
  }

  lemma SlotCostsBase(rules: seq<PricingRule>, base: Money, off: int, s: int, a: int)
    requires s > 0 && forall rule :: rule in rules ==> !RuleMatches(rule, a + off)
    ensures Walk(Tariff(rules, base, off), s, a, a + s) == base
  {
    OneStepWalk(Tariff(rules, base, off), s, a);
    FirstMatchIsInList(rules, a + off);
    assert Tariff(rules, base, off)(a) == PriceAt(rules, base, a + off);
  }

  lemma OneStepWalk(f: int -> Money, s: int, a: int)
    requires s > 0
    ensures Walk(f, s, a, a + s) == f(a)
  {
    assert Walk(f, s, a + s, a + s) == 0;
  }

  // For whole slots on the grid, slot length times the total is the sum, over all minutes, of the prices
  // in force.
  lemma PriceIsSumOfPricesInForce(
      s: int, rules: seq<PricingRule>, base: Money, off: int, a: int, b: int, prices: int -> Money)
    requires AllowedSlot(s) && RulesAligned(s, rules) && NoClash(rules)
    requires a <= b && OnGrid(s, a + off) && (b - a) % s == 0
    requires forall t :: a <= t < b ==> InForce(rules, base, t + off, prices(t))
    ensures s * Walk(Tariff(rules, base, off), s, a, b) == Walk(prices, 1, a, b)
  {
    PriceRefinesMinuteTariff(s, rules, base, off, a, b);
    forall t | a <= t < b ensures prices(t) == Tariff(rules, base, off)(t) {
      TariffIsInForce(rules, base, off, t, prices(t));
    }
    SamePricesSameWalk(prices, Tariff(rules, base, off), a, b);
  }

  lemma {:induction false} SamePricesSameWalk(f: int -> Money, g: int -> Money, a: int, b: int)
    requires forall t :: a <= t < b ==> f(t) == g(t)
    ensures Walk(f, 1, a, b) == Walk(g, 1, a, b)
    decreases b - a
  {
    if a < b {
      SamePricesSameWalk(f, g, a + 1, b);
    }
  }

  // ---------- rule order does not matter ----------

  lemma AtMostOneRuleMatches(rules: seq<PricingRule>, i: nat, j: nat, local: int)
    requires NoClash(rules) && i < |rules| && j < |rules|
    requires RuleMatches(rules[i], local) && RuleMatches(rules[j], local)
    ensures i == j
  {
    assert WeekdayOf(local) in rules[i].weekdays * rules[j].weekdays;
    assert Clash(rules[i], rules[j]) && Clash(rules[j], rules[i]);
  }

  lemma MatchIgnoresOrder(rules: seq<PricingRule>, shuffled: seq<PricingRule>, local: int)
    requires NoClash(rules) && multiset(rules) == multiset(shuffled)
    ensures FirstMatch(rules, local) == FirstMatch(shuffled, local)
  {
    FirstMatchIsInList(rules, local);
    FirstMatchIsInList(shuffled, local);
    assert forall rule :: rule in rules <==> rule in multiset(rules);
    assert forall rule :: rule in shuffled <==> rule in multiset(shuffled);
    var x, y := FirstMatch(rules, local), FirstMatch(shuffled, local);
    if x.Some? && y.Some? {
      var i :| 0 <= i < |rules| && rules[i] == x.value;
      var j :| 0 <= j < |rules| && rules[j] == y.value;
      AtMostOneRuleMatches(rules, i, j, local);
    }
  }

  // The total of a range is the same for every permutation of a rule list without clashes.
  lemma {:induction false} PriceIgnoresRuleOrder(
      rules: seq<PricingRule>, shuffled: seq<PricingRule>, base: Money, off: int, s: int, a: int, b: int)
    requires s > 0 && NoClash(rules) && multiset(rules) == multiset(shuffled)
    ensures Walk(Tariff(rules, base, off), s, a, b) == Walk(Tariff(shuffled, base, off), s, a, b)
    decreases b - a
  {
    if a < b {
      MatchIgnoresOrder(rules, shuffled, a + off);
      assert Tariff(rules, base, off)(a) == PriceAt(rules, base, a + off);
      assert Tariff(shuffled, base, off)(a) == PriceAt(shuffled, base, a + off);
      PriceIgnoresRuleOrder(rules, shuffled, base, off, s, a + s, b);
    }
  }
}
