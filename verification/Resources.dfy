/** The resource aggregate: cross-rule invariants that creation and every mutator keep. */
module Resources {
  import opened Calendar
  import opened Schedules
  import opened Pricing

  datatype CustomAttribute = CustomAttribute(key: string, caption: string, value: string)

  const MAX_CUTOFF_HOURS := 168

  /** The persisted value of a resource. The local clock runs off minutes ahead of UTC. */
  datatype ResourceData = ResourceData(
    owner: int, off: int, slot: int, hours: WeeklySchedule, base: Money, cutoffHours: int,
    rules: seq<PricingRule>, baseAttributes: map<string, string>, customs: seq<CustomAttribute>,
    published: bool, deletedAt: Option<int>)

  // ---------- custom attributes ----------

  datatype CustomCode = DuplicateKey | ConflictsWithBase

  datatype CustomError = CustomError(code: CustomCode, idx: int)

  ghost predicate CustomsOk(baseAttributes: map<string, string>, customs: seq<CustomAttribute>) {
    && (forall i, j :: 0 <= i < j < |customs| ==> customs[i].key != customs[j].key)
    && (forall i :: 0 <= i < |customs| ==> customs[i].key !in baseAttributes)
  }

  ghost predicate CustomFaultAt(
      baseAttributes: map<string, string>, customs: seq<CustomAttribute>, e: CustomError)
  {
    0 <= e.idx < |customs| &&
    match e.code
    case DuplicateKey => exists p :: 0 <= p < e.idx && customs[p].key == customs[e.idx].key
    case ConflictsWithBase => customs[e.idx].key in baseAttributes
  }

  lemma NoFaultMeansCustomsOk(baseAttributes: map<string, string>, customs: seq<CustomAttribute>)
    ensures (forall e :: !CustomFaultAt(baseAttributes, customs, e)) <==> CustomsOk(baseAttributes, customs)
  {
    if forall e :: !CustomFaultAt(baseAttributes, customs, e) {
      forall j | 0 <= j < |customs|
        ensures customs[j].key !in baseAttributes
        ensures forall i :: 0 <= i < j ==> customs[i].key != customs[j].key
      {
        assert !CustomFaultAt(baseAttributes, customs, CustomError(ConflictsWithBase, j));
        assert !CustomFaultAt(baseAttributes, customs, CustomError(DuplicateKey, j));
      }
    }
  }

  method ValidateCustomAttributes(baseAttributes: map<string, string>, customs: seq<CustomAttribute>)
    returns (errors: seq<CustomError>)
    ensures forall e :: e in errors <==> CustomFaultAt(baseAttributes, customs, e)
    ensures errors == [] <==> CustomsOk(baseAttributes, customs)
  {
    errors := [];
    var seen: set<string> := {};
    for idx := 0 to |customs|
      invariant forall k :: k in seen <==> exists p :: 0 <= p < idx && customs[p].key == k
      invariant forall e :: e in errors <==> e.idx < idx && CustomFaultAt(baseAttributes, customs, e)
    {
      var key := customs[idx].key;
      if key in seen {
        errors := errors + [CustomError(DuplicateKey, idx)];
      }
      seen := seen + {key};
      if key in baseAttributes {
        errors := errors + [CustomError(ConflictsWithBase, idx)];
      }
    }
    NoFaultMeansCustomsOk(baseAttributes, customs);
    assert errors != [] ==> CustomFaultAt(baseAttributes, customs, errors[0]);
  }

  // ---------- the aggregate ----------

  ghost predicate ResourceOk(d: ResourceData) {
    && AllowedSlot(d.slot)
    && 0 <= d.cutoffHours <= MAX_CUTOFF_HOURS
    && ScheduleOk(d.slot, d.hours)
    && RulesOk(d.slot, d.hours, d.rules)
    && CustomsOk(d.baseAttributes, d.customs)
  }

  datatype ResourceFault =
    | CreateFaults(badSlot: bool, badPrice: bool, badCutoff: bool, rules: seq<RuleError>, customs: seq<CustomError>)
    | HoursFaults(errors: seq<ScheduleError>)
    | RuleFaults(ruleErrors: seq<RuleError>)
    | CustomFaults(customErrors: seq<CustomError>)
    | AlreadyDeleted

  // An error result that lists every fault of the rules, and nothing else.
  ghost predicate ListsRuleFaults(f: ResourceFault, s: int, hours: WeeklySchedule, rules: seq<PricingRule>)
    requires s != 0
  {
    f.RuleFaults? && forall e :: e in f.ruleErrors <==> RuleFaultAt(s, hours, rules, e)
  }

  ghost predicate ListsCustomFaults(
      f: ResourceFault, baseAttributes: map<string, string>, customs: seq<CustomAttribute>)
  {
    f.CustomFaults? && forall e :: e in f.customErrors <==> CustomFaultAt(baseAttributes, customs, e)
  }

  // The windows of a schedule that do not fit another grid.
  ghost predicate ListsMisfits(f: ResourceFault, s: int, hours: WeeklySchedule)
    requires s != 0
  {
    f.HoursFaults? && forall e :: e in f.errors <==> FaultAt(s, hours.ForWeekday(e.day), e.code, e.idx)
  }

  class Resource {
    const owner: int
    const off: int
    var slot: int
    var hours: WeeklySchedule
    var base: Money
    var cutoffHours: int
    var rules: seq<PricingRule>
    var baseAttributes: map<string, string>
    var customs: seq<CustomAttribute>
    var published: bool
    var deletedAt: Option<int>
    var updatedAt: int

    function Data(): ResourceData
      reads this
    {
      ResourceData(owner, off, slot, hours, base, cutoffHours, rules, baseAttributes, customs, published, deletedAt)
    }

    ghost predicate Valid()
      reads this
    {
      ResourceOk(Data())
    }

    constructor FromData(d: ResourceData, updatedAt: int)
      ensures Data() == d && this.updatedAt == updatedAt
    {
      owner, off, slot, hours, base, cutoffHours := d.owner, d.off, d.slot, d.hours, d.base, d.cutoffHours;
      rules, baseAttributes, customs := d.rules, d.baseAttributes, d.customs;
      published, deletedAt, this.updatedAt := d.published, d.deletedAt, updatedAt;
    }

    /** Creation gathers every fault of its own fields. Hours are taken unchecked: the aggregate is good
        exactly when the caller built them for the same slot length. */
    static method Create(
        owner: int, off: int, slot: int, hours: WeeklySchedule, base: int, cutoffHours: int,
        baseAttributes: map<string, string>, rules: seq<PricingRule>, customs: seq<CustomAttribute>,
        published: bool, now: int)
      returns (r: Result<Resource, ResourceFault>)
      ensures r.Ok? <==>
        && AllowedSlot(slot) && 0 <= base <= MAX_CENTS && 0 <= cutoffHours <= MAX_CUTOFF_HOURS
        && RulesOk(slot, hours, rules) && CustomsOk(baseAttributes, customs)
      ensures r.Ok? ==>
        && fresh(r.value) && (r.value.Valid() <==> ScheduleOk(slot, hours))
        && 0 <= base <= MAX_CENTS
        && r.value.Data() == ResourceData(owner, off, slot, hours, base, cutoffHours, rules, baseAttributes,
                                          customs, published, None)
      ensures r.Err? ==>
        && r.error.CreateFaults?
        && r.error.badSlot == !AllowedSlot(slot)
        && r.error.badPrice == !(0 <= base <= MAX_CENTS)
        && r.error.badCutoff == !(0 <= cutoffHours <= MAX_CUTOFF_HOURS)
        && (forall e :: e in r.error.rules <==> AllowedSlot(slot) && RuleFaultAt(slot, hours, rules, e))
        && (forall e :: e in r.error.customs <==> CustomFaultAt(baseAttributes, customs, e))
    {
      var ruleErrors: seq<RuleError> := [];
      if AllowedSlot(slot) {
        ruleErrors := ValidatePricingRules(slot, hours, rules);
      }
      var customErrors := ValidateCustomAttributes(baseAttributes, customs);
      var badSlot := !AllowedSlot(slot);
      var badPrice := base < 0 || base > MAX_CENTS;
      var badCutoff := !(0 <= cutoffHours <= MAX_CUTOFF_HOURS);
      if badSlot || badPrice || badCutoff || ruleErrors != [] || customErrors != [] {
        return Err(CreateFaults(badSlot, badPrice, badCutoff, ruleErrors, customErrors));
      }
      var res := new Resource.FromData(
        ResourceData(owner, off, slot, hours, base, cutoffHours, rules, baseAttributes, customs, published, None), now);
      return Ok(res);
    }

    /** Takes the hours unchecked: they keep the aggregate good exactly when they fit its grid. */
    method ReplaceOperatingHours(hours: WeeklySchedule, now: int) returns (r: Result<(), ResourceFault>)
      requires Valid()
      modifies this
      ensures AllowedSlot(slot) && (Valid() <==> r.Err? || ScheduleOk(slot, hours))
      ensures r.Ok? <==> RulesOk(slot, hours, rules)
      ensures r.Ok? ==> Data() == old(Data()).(hours := hours) && updatedAt == now
      ensures r.Err? ==> unchanged(this) && ListsRuleFaults(r.error, slot, hours, rules)
    {
      var errors := ValidatePricingRules(slot, hours, rules);
      if errors != [] {
        return Err(RuleFaults(errors));
      }
      this.hours := hours;
      updatedAt := now;
      return Ok(());
    }

    method ReplacePricingRules(rules: seq<PricingRule>, now: int) returns (r: Result<(), ResourceFault>)
      requires Valid()
      modifies this
      ensures Valid()
      ensures r.Ok? <==> RulesOk(slot, hours, rules)
      ensures r.Ok? ==> Data() == old(Data()).(rules := rules) && updatedAt == now
      ensures r.Err? ==> unchanged(this) && ListsRuleFaults(r.error, slot, hours, rules)
    {
      var errors := ValidatePricingRules(slot, hours, rules);
      if errors != [] {
        return Err(RuleFaults(errors));
      }
      this.rules := rules;
      updatedAt := now;
      return Ok(());
    }

    method ReplaceBaseAttributes(attrs: map<string, string>, now: int) returns (r: Result<(), ResourceFault>)
      requires Valid()
      modifies this
      ensures Valid()
      ensures r.Ok? <==> CustomsOk(attrs, customs)
      ensures r.Ok? ==> Data() == old(Data()).(baseAttributes := attrs) && updatedAt == now
      ensures r.Err? ==> unchanged(this) && ListsCustomFaults(r.error, attrs, customs)
    {
      var errors := ValidateCustomAttributes(attrs, customs);
      if errors != [] {
        return Err(CustomFaults(errors));
      }
      baseAttributes := attrs;
      updatedAt := now;
      return Ok(());
    }

    method ReplaceCustomAttributes(attrs: seq<CustomAttribute>, now: int) returns (r: Result<(), ResourceFault>)
      requires Valid()
      modifies this
      ensures Valid()
      ensures r.Ok? <==> CustomsOk(baseAttributes, attrs)
      ensures r.Ok? ==> Data() == old(Data()).(customs := attrs) && updatedAt == now
      ensures r.Err? ==> unchanged(this) && ListsCustomFaults(r.error, baseAttributes, attrs)
    {
      var errors := ValidateCustomAttributes(baseAttributes, attrs);
      if errors != [] {
        return Err(CustomFaults(errors));
      }
      customs := attrs;
      updatedAt := now;
      return Ok(());
    }

    /** Re-validates the same windows and rules against the new grid; on success they are unchanged. */
    method SetSlotDuration(duration: int, now: int) returns (r: Result<(), ResourceFault>)
      requires Valid() && AllowedSlot(duration)
      modifies this
      ensures Valid()
      ensures r.Ok? <==> HoursAligned(duration, hours) && RulesAligned(duration, rules)
      ensures r.Ok? ==> Data() == old(Data()).(slot := duration) && updatedAt == now
      ensures r.Err? ==> unchanged(this)
      ensures r.Err? ==>
        if HoursAligned(duration, hours) then ListsRuleFaults(r.error, duration, hours, rules)
        else ListsMisfits(r.error, duration, hours)
    {
      var days: map<Weekday, seq<TimeWindow>> := map[];
      for k := 0 to |ALL_WEEKDAYS|
        invariant forall i :: 0 <= i < k ==> ALL_WEEKDAYS[i] in days
        invariant forall wd :: wd in days ==> days[wd] == hours.ForWeekday(wd)
      {
        days := days[ALL_WEEKDAYS[k] := hours.ForWeekday(ALL_WEEKDAYS[k])];
      }
      forall wd ensures DayOf(days, wd) == hours.ForWeekday(wd) {
        assert ALL_WEEKDAYS[DayIndex(wd)] == wd;
      }
      RegridNeedsOnlyAlignment(Data(), duration);
      var rebuilt := Schedules.Create(duration, days);
      if rebuilt.Err? {
        return Err(HoursFaults(rebuilt.error));
      }
      SameDaysSameSchedule(rebuilt.value, hours);
      var errors := ValidatePricingRules(duration, rebuilt.value, rules);
      if errors != [] {
        return Err(RuleFaults(errors));
      }
      slot := duration;
      hours := rebuilt.value;
      updatedAt := now;
      return Ok(());
    }

    method SetBasePrice(price: Money, now: int)
      requires Valid()
      modifies this
      ensures Valid() && Data() == old(Data()).(base := price) && updatedAt == now
    {
      base := price;
      updatedAt := now;
    }

    method SetCancellationCutoff(hours: int, now: int)
      requires Valid() && 0 <= hours <= MAX_CUTOFF_HOURS
      modifies this
      ensures Valid() && Data() == old(Data()).(cutoffHours := hours) && updatedAt == now
    {
      cutoffHours := hours;
      updatedAt := now;
    }

    method SetPublished(flag: bool, now: int)
      requires Valid()
      modifies this
      ensures Valid() && Data() == old(Data()).(published := flag) && updatedAt == now
    {
      published := flag;
      updatedAt := now;
    }

    method SoftDelete(now: int) returns (r: Result<(), ResourceFault>)
      modifies this
      ensures old(Valid()) ==> Valid()
      ensures r.Ok? <==> old(deletedAt) == None
      ensures r.Ok? ==> Data() == old(Data()).(deletedAt := Some(now)) && updatedAt == now
      ensures r.Err? ==> r.error == AlreadyDeleted && unchanged(this)
    {
      if deletedAt != None {
        return Err(AlreadyDeleted);
      }
      deletedAt := Some(now);
      updatedAt := now;
      return Ok(());
    }
  }

  // ---------- changing the grid ----------

  ghost predicate HoursAligned(s: int, hours: WeeklySchedule)
    requires s != 0
  {
    forall wd :: AllAligned(s, hours.ForWeekday(wd))
  }

  lemma SameDaysSameSchedule(a: WeeklySchedule, b: WeeklySchedule)
    requires forall wd :: a.ForWeekday(wd) == b.ForWeekday(wd)
    ensures a == b
  {
    assert a.ForWeekday(Monday) == b.ForWeekday(Monday) && a.ForWeekday(Tuesday) == b.ForWeekday(Tuesday);
    assert a.ForWeekday(Wednesday) == b.ForWeekday(Wednesday) && a.ForWeekday(Thursday) == b.ForWeekday(Thursday);
    assert a.ForWeekday(Friday) == b.ForWeekday(Friday) && a.ForWeekday(Saturday) == b.ForWeekday(Saturday);
    assert a.ForWeekday(Sunday) == b.ForWeekday(Sunday);
  }

  // Order, disjointness, containment and clashes do not mention the slot length.
  lemma RegridNeedsOnlyAlignment(d: ResourceData, s: int)
    requires ResourceOk(d) && AllowedSlot(s)
    ensures ScheduleOk(s, d.hours) <==> HoursAligned(s, d.hours)
    ensures RulesOk(s, d.hours, d.rules) <==> RulesAligned(s, d.rules)
    ensures ResourceOk(d.(slot := s)) <==> HoursAligned(s, d.hours) && RulesAligned(s, d.rules)
  {
    assert forall wd :: DayOk(d.slot, d.hours.ForWeekday(wd));
    if ScheduleOk(s, d.hours) {
      forall wd ensures AllAligned(s, d.hours.ForWeekday(wd)) {
        assert DayOk(s, d.hours.ForWeekday(wd));
      }
    }
    if HoursAligned(s, d.hours) {
      forall wd ensures DayOk(s, d.hours.ForWeekday(wd)) {
        assert AllAligned(s, d.hours.ForWeekday(wd));
      }
    }
  }

  lemma DivisorAligns(s: int, fine: int, w: TimeWindow)
    requires s > 0 && fine > 0 && s % fine == 0 && AlignedWindow(s, w)
    ensures AlignedWindow(fine, w)
  {
    MultipleOfMultiple(s, fine, w.start);
    MultipleOfMultiple(s, fine, w.end - w.start);
  }

  lemma MultipleOfMultiple(s: int, fine: int, x: int)
    requires s > 0 && fine > 0 && s % fine == 0 && x % s == 0
    ensures x % fine == 0
  {
    assert x == s * (x / s) && s == fine * (s / fine);
    assert x == 0 + fine * ((s / fine) * (x / s)) by {
      assert (fine * (s / fine)) * (x / s) == fine * ((s / fine) * (x / s));
    }
    SameRemainder(fine, 0, (s / fine) * (x / s));
  }

  // Moving to an allowed slot length that divides the present one can never be refused.
  lemma FinerGridAlwaysFits(d: ResourceData, fine: int)
    requires ResourceOk(d) && AllowedSlot(fine) && d.slot % fine == 0
    ensures ResourceOk(d.(slot := fine))
  {
    RegridNeedsOnlyAlignment(d, fine);
    forall wd ensures AllAligned(fine, d.hours.ForWeekday(wd)) {
      var ws := d.hours.ForWeekday(wd);
      assert DayOk(d.slot, ws);
      forall i | 0 <= i < |ws| ensures AlignedWindow(fine, ws[i]) {
        DivisorAligns(d.slot, fine, ws[i]);
      }
    }
    forall i | 0 <= i < |d.rules| ensures AlignedWindow(fine, d.rules[i].window) {
      DivisorAligns(d.slot, fine, d.rules[i].window);
    }
  }
}
