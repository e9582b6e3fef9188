/** Weekday fields of cron expressions (`_normalise_weekdays`). */
module Weekdays {
  import opened Splitting
  import opened Text
  import opened Wrappers

  // Standard cron numbers the days from Sunday (0 and 7), the trigger library from Monday, so
  // a field is rewritten as names before it is handed on.

  /** The days in the order of the week as it is shown, and their standard cron numbers. */
  function DayName(k: nat): string
    requires k < 7
  {
    if k == 0 then "mon" else if k == 1 then "tue" else if k == 2 then "wed" else if k == 3 then "thu"
    else if k == 4 then "fri" else if k == 5 then "sat" else "sun"
  }

  function CronNumber(k: nat): nat
    requires k < 7
  {
    (k + 1) % 7
  }

  datatype FieldError = UnknownWeekday | BadStep | RunsBackwards | StepNeedsRange

  /** `_weekday_number`. */
  function WeekdayNumber(token: string): (r: Result<nat, FieldError>)
    ensures r.Ok? ==> r.value <= 7
  {
    var lowered := Lower(token);
    if lowered == "sun" then Ok(0)
    else if lowered == "mon" then Ok(1)
    else if lowered == "tue" then Ok(2)
    else if lowered == "wed" then Ok(3)
    else if lowered == "thu" then Ok(4)
    else if lowered == "fri" then Ok(5)
    else if lowered == "sat" then Ok(6)
    else if IsDigits(token) && ToNat(token) <= 7 then Ok(ToNat(token))
    else Err(UnknownWeekday)
  }

  /** One part of the list: from `low` to `high` in steps. */
  datatype Range = Range(low: nat, high: nat, step: nat)

  function ParseRange(body: string, slash: bool, step: nat): (r: Result<Range, FieldError>)
    ensures r.Ok? ==> r.value.low <= r.value.high <= 7 && r.value.step == step
  {
    if body == "*" then Ok(Range(0, 6, step))
    else if '-' in body then
      var (first, _, last) := Partition(body, '-');
      var low, high := WeekdayNumber(first), WeekdayNumber(last);
      if low.Err? then Err(low.error)
      else if high.Err? then Err(high.error)
      else
        var end := if high.value == 0 && low.value > 0 then 7 else high.value;
        if low.value > end then Err(RunsBackwards)
        else Ok(Range(low.value, end, step))
    else if slash then Err(StepNeedsRange)
    else
      var day := WeekdayNumber(body);
      if day.Err? then Err(day.error) else Ok(Range(day.value, day.value, step))
  }

  function ParsePart(part: string): (r: Result<Range, FieldError>)
    ensures r.Ok? ==> r.value.low <= r.value.high <= 7 && r.value.step >= 1
  {
    var (body, slash, rawStep) := Partition(part, '/');
    if slash && (!IsDigits(rawStep) || ToNat(rawStep) < 1) then Err(BadStep)
    else ParseRange(body, slash, if slash then ToNat(rawStep) else 1)
  }

  // ---------------------------------------------------------------- the standard cron meaning

  /** A day belongs to a range if some number of steps from its start lands on it, counting
      both 0 and 7 as Sunday. */
  ghost predicate InRange(r: Range, day: nat) {
    r.step >= 1 && exists n: nat :: LandsOn(r, n, day)
  }

  ghost predicate LandsOn(r: Range, n: nat, day: nat) {
    r.low + n * r.step <= r.high && (r.low + n * r.step) % 7 == day
  }

  const STANDARD_WEEK: seq<string> := ["sun", "mon", "tue", "wed", "thu", "fri", "sat"]

  /** A name in any case, or a number from 0 to 7. */
  ghost predicate Means(token: string, d: nat) {
    (d < 7 && Lower(token) == STANDARD_WEEK[d]) || (d <= 7 && IsDigits(token) && ToNat(token) == d)
  }

  /** What stands before the slash, from which day to which: all days, a range, which may end on
      Sunday, or one day. */
  ghost predicate Spans(body: string, low: nat, high: nat) {
    if body == "*" then low == 0 && high == 6
    else if '-' in body then
      exists first, last, end: nat ::
        && IsPair(body, first, last) && Means(first, low) && Means(last, end)
        && high == (if end == 0 && low > 0 then 7 else end) && low <= high
    else low == high && Means(body, low)
  }

  ghost predicate IsPair(body: string, first: string, last: string) {
    body == first + "-" + last && '-' !in first
  }

  ghost predicate IsStepped(part: string, body: string, rawStep: string) {
    part == body + "/" + rawStep && '/' !in body
  }

  /** A part of the list says: every `r.step`-th day from `r.low` to `r.high`. Without a slash that
      is every day, and a step needs all days or a range in front of it. */
  ghost predicate Says(part: string, r: Range) {
    || ('/' !in part && Spans(part, r.low, r.high) && r.step == 1)
    || exists body, rawStep ::
         && IsStepped(part, body, rawStep) && Spans(body, r.low, r.high) && (body == "*" || '-' in body)
         && IsDigits(rawStep) && r.step == ToNat(rawStep) && r.step >= 1
  }

  /** Why a part is refused, the first reason that applies. */
  ghost predicate IsRefused(part: string, e: FieldError) {
    if '/' in part then
      exists body, rawStep ::
        && IsStepped(part, body, rawStep)
        && if !IsDigits(rawStep) || ToNat(rawStep) == 0 then e == BadStep
           else if body != "*" && '-' !in body then e == StepNeedsRange
           else IsUnreadable(body, e)
    else IsUnreadable(part, e)
  }

  ghost predicate IsUnreadable(body: string, e: FieldError) {
    && body != "*"
    && if '-' in body then
         exists first, last ::
           && IsPair(body, first, last)
           && if (forall d :: !Means(first, d)) || (forall d :: !Means(last, d)) then e == UnknownWeekday
              else e == RunsBackwards && forall low, end :: Means(first, low) && Means(last, end) ==> end != 0 && low > end
       else e == UnknownWeekday && forall d :: !Means(body, d)
  }

  lemma NamesAreWords(token: string)
    ensures (exists d :: 0 <= d < 7 && Lower(token) == STANDARD_WEEK[d]) ==> !IsDigits(token)
  {
    if d :| 0 <= d < 7 && Lower(token) == STANDARD_WEEK[d] {
      assert |Lower(token)| == 3 && Lower(token)[0] == LowerChar(token[0]);
    }
  }

  lemma NumberIsMeant(token: string, d: nat)
    ensures WeekdayNumber(token) == Ok(d) <==> Means(token, d)
    ensures WeekdayNumber(token).Err? <==> forall n :: !Means(token, n)
    ensures WeekdayNumber(token).Err? ==> WeekdayNumber(token) == Err(UnknownWeekday)
  {
    NamesAreWords(token);
    var lowered, week := Lower(token), STANDARD_WEEK;
    hide Lower;
    assert |week[0]| == |week[1]| == |week[2]| == |week[3]| == |week[4]| == |week[5]| == |week[6]| == 3;
    if WeekdayNumber(token).Ok? {
      assert Means(token, WeekdayNumber(token).value);
    }
  }

  lemma BodyIsMeant(body: string, slash: bool, step: nat, low: nat, high: nat)
    requires slash ==> body == "*" || '-' in body
    ensures ParseRange(body, slash, step) == Ok(Range(low, high, step)) <==> Spans(body, low, high)
    ensures forall e :: ParseRange(body, slash, step) == Err(e) <==> IsUnreadable(body, e)
  {
    hide WeekdayNumber, Means;
    if body != "*" && '-' in body {
      var (first, _, last) := Partition(body, '-');
      assert IsPair(body, first, last);
      forall f, l | IsPair(body, f, l)
        ensures f == first && l == last
      {
        PartitionUnique(body, '-', f, l);
      }
      NumberIsMeant(first, low);
      NumberIsMeant(last, high);
      if WeekdayNumber(first).Ok? && WeekdayNumber(last).Ok? {
        var a, b := WeekdayNumber(first).value, WeekdayNumber(last).value;
        forall d: nat
          ensures Means(first, d) <==> d == a
          ensures Means(last, d) <==> d == b
        {
          NumberIsMeant(first, d);
          NumberIsMeant(last, d);
        }
      }
    } else if body != "*" {
      NumberIsMeant(body, low);
    }
  }

  /** The parser reads what the part says, and refuses for the reason given. */
  lemma PartIsMeant(part: string, r: Range)
    ensures ParsePart(part) == Ok(r) <==> Says(part, r)
    ensures forall e :: ParsePart(part) == Err(e) <==> IsRefused(part, e)
  {
    hide ParseRange, Spans, IsUnreadable;
    var (body, slash, rawStep) := Partition(part, '/');
    if slash {
      assert IsStepped(part, body, rawStep);
      forall b, raw | IsStepped(part, b, raw)
        ensures b == body && raw == rawStep
      {
        PartitionUnique(part, '/', b, raw);
      }
      if IsDigits(rawStep) && ToNat(rawStep) >= 1 {
        StepsNeedRange(body, ToNat(rawStep), r);
      }
    } else {
      BodyIsMeant(part, false, 1, r.low, r.high);
      StepStays(part, false, 1);
    }
  }

  lemma StepStays(body: string, slash: bool, step: nat)
    ensures ParseRange(body, slash, step).Ok? ==> ParseRange(body, slash, step).value.step == step
  {
  }

  lemma StepsNeedRange(body: string, step: nat, r: Range)
    ensures ParseRange(body, true, step) == Ok(r) <==>
              Spans(body, r.low, r.high) && (body == "*" || '-' in body) && r.step == step
    ensures forall e :: ParseRange(body, true, step) == Err(e) <==>
              if body != "*" && '-' !in body then e == StepNeedsRange else IsUnreadable(body, e)
  {
    if body == "*" || '-' in body {
      BodyIsMeant(body, true, step, r.low, r.high);
      StepStays(body, true, step);
    }
  }

  ghost predicate InPart(part: string, day: nat) {
    exists r :: Says(part, r) && InRange(r, day)
  }

  ghost predicate CanBeRead(part: string) {
    exists r :: Says(part, r)
  }

  lemma PartIsRead(part: string, day: nat)
    ensures InPart(part, day) <==> ParsePart(part).Ok? && InRange(ParsePart(part).value, day)
    ensures CanBeRead(part) <==> ParsePart(part).Ok?
  {
    hide ParsePart, Says, InRange;
    forall r
      ensures Says(part, r) <==> ParsePart(part) == Ok(r)
    {
      PartIsMeant(part, r);
    }
    if ParsePart(part).Ok? {
      assert Says(part, ParsePart(part).value);
    }
  }

  ghost predicate InParts(parts: seq<string>, day: nat) {
    exists i :: 0 <= i < |parts| && InPart(parts[i], day)
  }

  /** The days of the week a field stands for. */
  ghost predicate FiresOn(field: string, day: nat) {
    InParts(Split(field, ','), day)
  }

  ghost predicate WellFormed(field: string) {
    forall i :: 0 <= i < |Split(field, ',')| ==> CanBeRead(Split(field, ',')[i])
  }

  /** The first part that cannot be read, and why. */
  ghost predicate IsRefusedFor(field: string, e: FieldError) {
    var parts := Split(field, ',');
    exists i :: 0 <= i < |parts| && IsRefused(parts[i], e) && forall j :: 0 <= j < i ==> CanBeRead(parts[j])
  }

  // ---------------------------------------------------------------- the rewriting

  /** `range(low, high + 1, step)`, each day modulo 7. */
  function Steps(r: Range): set<nat>
    requires r.step >= 1
    decreases r.high + 1 - r.low
  {
    if r.low > r.high then {} else {r.low % 7} + Steps(Range(r.low + r.step, r.high, r.step))
  }

  function Chosen(parts: seq<string>): Result<set<nat>, FieldError> {
    if parts == [] then Ok({})
    else
      var range := ParsePart(parts[0]);
      if range.Err? then Err(range.error)
      else
        var rest := Chosen(parts[1..]);
        if rest.Err? then rest else Ok(Steps(range.value) + rest.value)
  }

  /** The names of the chosen days from position `k` of the week on. */
  function NamesFrom(chosen: set<nat>, k: nat): seq<string>
    requires k <= 7
    decreases 7 - k
  {
    if k == 7 then []
    else (if CronNumber(k) in chosen then [DayName(k)] else []) + NamesFrom(chosen, k + 1)
  }

  function Spell(chosen: set<nat>): string {
    if |chosen| == 7 then "*"
    else
      var names := NamesFrom(chosen, 0);
      if names == [] then "" else Join(names, ',')
  }

  function Normalise(field: string): Result<string, FieldError> {
    if field == "*" then Ok("*")
    else
      var chosen := Chosen(Split(field, ','));
      if chosen.Err? then Err(chosen.error) else Ok(Spell(chosen.value))
  }

  /** `chosen.update(day % 7 for day in range(low, high + 1, step))`. */
  method AddRange(chosen: set<nat>, range: Range) returns (more: set<nat>)
    requires range.step >= 1
    ensures more == chosen + Steps(range)
  {
    more := chosen;
    var day := range.low;
    while day <= range.high
      invariant chosen + Steps(range) == more + Steps(range.(low := day))
      decreases range.high + 1 - day
    {
      more := more + {day % 7};
      day := day + range.step;
    }
  }

  /** The loop of `_normalise_weekdays` over the parts of the list. */
  method NormaliseWeekdays(field: string) returns (r: Result<string, FieldError>)
    ensures r == Normalise(field)
  {
    hide ParsePart, Split, Spell;
    if field == "*" {
      return Ok("*");
    }
    var parts := Split(field, ',');
    var chosen: set<nat> := {};
    var i := 0;
    assert parts[0..] == parts;
    while i < |parts|
      invariant i <= |parts|
      invariant Chosen(parts[i..]).Err? ==> Chosen(parts) == Chosen(parts[i..])
      invariant Chosen(parts[i..]).Ok? ==> Chosen(parts).Ok? && Chosen(parts).value == chosen + Chosen(parts[i..]).value
    {
      var range := ParsePart(parts[i]);
      if range.Err? {
        return Err(range.error);
      }
      assert parts[i..][1..] == parts[i + 1..];
      chosen := AddRange(chosen, range.value);
      i := i + 1;
    }
    return Ok(Spell(chosen));
  }

  // ---------------------------------------------------------------- what it preserves

  lemma {:induction false} StepsAreTheRange(r: Range, day: nat)
    requires r.step >= 1
    ensures day in Steps(r) <==> InRange(r, day)
    decreases r.high + 1 - r.low
  {
    if r.low <= r.high {
      var rest := Range(r.low + r.step, r.high, r.step);
      StepsAreTheRange(rest, day);
      if InRange(rest, day) {
        var n: nat :| LandsOn(rest, n, day);
        assert r.low + (n + 1) * r.step == rest.low + n * r.step;
        assert LandsOn(r, n + 1, day);
      }
      if day == r.low % 7 {
        assert LandsOn(r, 0, day);
      }
      if InRange(r, day) && day != r.low % 7 {
        var n: nat :| LandsOn(r, n, day);
        assert n > 0;
        assert rest.low + (n - 1) * rest.step == r.low + n * r.step;
        assert LandsOn(rest, n - 1, day);
      }
    } else {
      forall n: nat
        ensures !LandsOn(r, n, day)
      {
        assert n * r.step >= 0;
      }
    }
  }

  lemma NoPartsNoDay(day: nat)
    ensures !InParts([], day)
  {
  }

  lemma InPartsOneByOne(parts: seq<string>, day: nat)
    requires parts != []
    ensures InParts(parts, day) <==> InPart(parts[0], day) || InParts(parts[1..], day)
  {
    hide InPart;
    if InParts(parts[1..], day) {
      var i :| 0 <= i < |parts[1..]| && InPart(parts[1..][i], day);
      assert InPart(parts[i + 1], day);
    }
    if i :| 1 <= i < |parts| && InPart(parts[i], day) {
      assert InPart(parts[1..][i - 1], day);
    }
  }

  lemma {:induction false} ChosenIsMeant(parts: seq<string>, day: nat)
    ensures Chosen(parts).Ok? <==> forall i :: 0 <= i < |parts| ==> CanBeRead(parts[i])
    ensures Chosen(parts).Ok? ==> (day in Chosen(parts).value <==> InParts(parts, day))
  {
    hide InParts, InPart, CanBeRead, ParsePart, InRange;
    if parts == [] {
      NoPartsNoDay(day);
    } else {
      ChosenIsMeant(parts[1..], day);
      PartIsRead(parts[0], day);
      if ParsePart(parts[0]).Ok? {
        StepsAreTheRange(ParsePart(parts[0]).value, day);
      }
      InPartsOneByOne(parts, day);
      assert forall i :: 1 <= i < |parts| ==> parts[i] == parts[1..][i - 1];
    }
  }

  lemma {:induction false} FirstErrorCounts(parts: seq<string>, e: FieldError)
    ensures Chosen(parts) == Err(e) <==>
              exists i :: 0 <= i < |parts| && IsRefused(parts[i], e) && forall j :: 0 <= j < i ==> CanBeRead(parts[j])
  {
    hide ParsePart, IsRefused, CanBeRead, Steps;
    if parts != [] {
      var range := ParsePart(parts[0]);
      PartIsRead(parts[0], 0);
      PartIsMeant(parts[0], Range(0, 0, 1));
      FirstErrorCounts(parts[1..], e);
      if range.Ok? {
        if i :| 0 <= i < |parts| && IsRefused(parts[i], e) && forall j :: 0 <= j < i ==> CanBeRead(parts[j]) {
          assert i > 0 && IsRefused(parts[1..][i - 1], e);
          assert forall j :: 0 <= j < i - 1 ==> parts[1..][j] == parts[j + 1];
        }
        if i :| 0 <= i < |parts[1..]| && IsRefused(parts[1..][i], e) && forall j :: 0 <= j < i ==> CanBeRead(parts[1..][j]) {
          assert IsRefused(parts[i + 1], e);
          assert forall j :: 1 <= j < i + 1 ==> parts[j] == parts[1..][j - 1];
        }
      }
    }
  }

  ghost predicate IsWeek(chosen: set<nat>) {
    forall d :: d in chosen ==> d < 7
  }

  lemma {:induction false} ChosenIsWeek(parts: seq<string>)
    requires Chosen(parts).Ok?
    ensures IsWeek(Chosen(parts).value) && (parts != [] ==> Chosen(parts).value != {})
  {
    if parts != [] {
      ChosenIsWeek(parts[1..]);
      var range := ParsePart(parts[0]).value;
      forall d | d in Steps(range)
        ensures d < 7
      {
        StepsAreTheRange(range, d);
      }
      assert range.low % 7 in Steps(range);
    }
  }

  lemma FullWeek(chosen: set<nat>)
    requires IsWeek(chosen)
    ensures |chosen| == 7 <==> chosen == {0, 1, 2, 3, 4, 5, 6}
  {
    var week: set<nat> := {0, 1, 2, 3, 4, 5, 6};
    assert chosen <= week;
    assert |week| == 7;
    if |chosen| == 7 {
      assert week == chosen + (week - chosen);
    }
  }

  lemma NameIsItself(k: nat)
    requires k < 7
    ensures |DayName(k)| == 3 && Lower(DayName(k)) == DayName(k) && WeekdayNumber(DayName(k)) == Ok(CronNumber(k))
    ensures '-' !in DayName(k) && '/' !in DayName(k) && Free(DayName(k), ',') && DayName(k) != "*"
  {
    assert Lower(DayName(k)) == DayName(k);
  }

  lemma NameIsOneDay(k: nat)
    requires k < 7
    ensures ParsePart(DayName(k)) == Ok(Range(CronNumber(k), CronNumber(k), 1))
    ensures Steps(Range(CronNumber(k), CronNumber(k), 1)) == {CronNumber(k)}
  {
    NameIsItself(k);
    PartitionNone(DayName(k), '/');
    var d := CronNumber(k);
    assert Steps(Range(d + 1, d, 1)) == {};
  }

  /** The days at position `k` of the week and after. */
  function DaysFrom(chosen: set<nat>, k: nat): set<nat>
    requires k <= 7
    decreases 7 - k
  {
    if k == 7 then {} else (if CronNumber(k) in chosen then {CronNumber(k)} else {}) + DaysFrom(chosen, k + 1)
  }

  lemma {:induction false} NamesReadBack(chosen: set<nat>, k: nat)
    requires k <= 7
    ensures Chosen(NamesFrom(chosen, k)) == Ok(DaysFrom(chosen, k))
    ensures AllFree(NamesFrom(chosen, k), ',')
    ensures forall i :: 0 <= i < |NamesFrom(chosen, k)| ==> |NamesFrom(chosen, k)[i]| == 3
    decreases 7 - k
  {
    hide ParsePart, Steps, DayName;
    if k < 7 {
      NamesReadBack(chosen, k + 1);
      var rest := NamesFrom(chosen, k + 1);
      if CronNumber(k) in chosen {
        NameIsItself(k);
        NameIsOneDay(k);
        assert NamesFrom(chosen, k) == [DayName(k)] + rest;
        assert ([DayName(k)] + rest)[1..] == rest;
      } else {
        assert [] + rest == rest;
        assert DaysFrom(chosen, k) == DaysFrom(chosen, k + 1);
      }
    }
  }

  lemma DaysFromAll(chosen: set<nat>)
    requires IsWeek(chosen)
    ensures DaysFrom(chosen, 0) == chosen
  {
    forall d | d in chosen
      ensures d in DaysFrom(chosen, 0)
    {
      DayIsFrom(chosen, 0, (d + 6) % 7);
    }
    DaysFromOnly(chosen, 0);
  }

  lemma {:induction false} DayIsFrom(chosen: set<nat>, k: nat, at: nat)
    requires k <= at < 7 && CronNumber(at) in chosen
    ensures CronNumber(at) in DaysFrom(chosen, k)
    decreases at - k
  {
    if k < at {
      DayIsFrom(chosen, k + 1, at);
    }
  }

  lemma {:induction false} DaysFromOnly(chosen: set<nat>, k: nat)
    requires k <= 7
    ensures DaysFrom(chosen, k) <= chosen
    decreases 7 - k
  {
    if k < 7 {
      DaysFromOnly(chosen, k + 1);
    }
  }

  /** Spelling out a set of days and reading it back gives the set. */
  lemma SpellReadsBack(chosen: set<nat>)
    requires IsWeek(chosen) && chosen != {}
    ensures Chosen(Split(Spell(chosen), ',')) == Ok(chosen)
    ensures Spell(chosen) == "*" <==> |chosen| == 7
  {
    DaysFromAll(chosen);
    NamesReadBack(chosen, 0);
    if |chosen| == 7 {
      FullWeek(chosen);
      StarIsAllDays();
    } else {
      var names := NamesFrom(chosen, 0);
      assert Chosen([]) == Ok({});
      SplitIsUnique(names, ',');
      NamesAreNoStar(names);
    }
  }

  lemma NamesAreNoStar(names: seq<string>)
    requires names != [] && forall i :: 0 <= i < |names| ==> |names[i]| == 3
    ensures |Join(names, ',')| >= 3
  {
  }

  lemma StarIsAllDays()
    ensures Chosen(Split("*", ',')) == Ok({0, 1, 2, 3, 4, 5, 6})
  {
    StarStands();
    hide ParsePart, Steps, Split;
    assert Chosen([]) == Ok({});
    assert ["*"][1..] == [];
    var week := Steps(Range(0, 6, 1));
    assert week + {} == week;
    assert Chosen(["*"]) == Ok(week + {});
  }

  lemma StarStands()
    ensures Split("*", ',') == ["*"]
    ensures ParsePart("*") == Ok(Range(0, 6, 1))
    ensures Steps(Range(0, 6, 1)) == {0, 1, 2, 3, 4, 5, 6}
  {
    assert Split("", ',') == [""];
    assert Init("*") == "" && Last("*") == '*';
    assert Split("*", ',') == Init([""]) + [Last([""]) + ['*']];
    assert Last([""]) + ['*'] == "*";
    PartitionNone("*", '/');
    hide ParsePart, Split;
    forall d: nat
      ensures d in Steps(Range(0, 6, 1)) <==> d < 7
    {
      StepsAreTheRange(Range(0, 6, 1), d);
      if d < 7 {
        assert LandsOn(Range(0, 6, 1), d, d);
      }
    }
  }

  /** A field is refused exactly when one of its parts cannot be read; otherwise the rewritten
      field stands for the same days of the week. */
  lemma NormalisePreservesDays(field: string)
    ensures Normalise(field).Ok? <==> WellFormed(field)
    ensures forall e :: Normalise(field) == Err(e) ==> IsRefusedFor(field, e)
    ensures Normalise(field).Ok? ==>
              forall day: nat :: FiresOn(Normalise(field).value, day) <==> FiresOn(field, day)
  {
    ChosenIsMeant(Split(field, ','), 0);
    if Normalise(field).Err? {
      FirstErrorCounts(Split(field, ','), Normalise(field).error);
    }
    if field == "*" {
      StarIsAllDays();
    } else if Normalise(field).Ok? {
      var chosen := Chosen(Split(field, ',')).value;
      ChosenIsWeek(Split(field, ','));
      SpellReadsBack(chosen);
      forall day: nat
        ensures FiresOn(Normalise(field).value, day) <==> FiresOn(field, day)
      {
        ChosenIsMeant(Split(field, ','), day);
        ChosenIsMeant(Split(Spell(chosen), ','), day);
      }
    }
  }

  // ---------------------------------------------------------------- what single parts stand for

  lemma OnePartFires(part: string, r: Range, day: nat)
    requires ',' !in part && Says(part, r)
    ensures FiresOn(part, day) <==> InRange(r, day)
    ensures WellFormed(part)
  {
    hide Says, ParsePart, InRange;
    SplitIsUnique([part], ',');
    assert Split(part, ',') == [part] && [part][0] == part;
    PartIsMeant(part, r);
    PartIsRead(part, day);
    InPartsOneByOne([part], day);
    NoPartsNoDay(day);
    hide InParts;
    assert [part][1..] == [];
  }

  /** A single token stands for the day it means and no other, and is rewritten as that day's name. */
  lemma TokenIsItsDay(token: string, d: nat, day: nat)
    requires Means(token, d)
    ensures FiresOn(token, day) <==> day == d % 7
    ensures d <= 7 && Normalise(token) == Ok(STANDARD_WEEK[d % 7])
  {
    assert d <= 7;
    hide Means, Says, FiresOn, Normalise, InRange;
    MeantIsPlain(token, d);
    MeantSays(token, d);
    OnePartFires(token, Range(d, d, 1), day);
    OneDayOnly(d, day);
    SameDaySpelled(token, d);
  }

  /** So a number from 0 to 7 stands for its day, 0 and 7 being Sunday, and a name in any case for its own. */
  lemma NumberIsItsDay(d: nat, day: nat)
    requires d <= 7
    ensures FiresOn(FromNat(d), day) <==> day == d % 7
    ensures Normalise(FromNat(d)) == Ok(STANDARD_WEEK[d % 7])
  {
    hide FiresOn, Normalise;
    TokenIsItsDay(FromNat(d), d, day);
  }

  lemma NameIsItsDay(token: string, d: nat, day: nat)
    requires d < 7 && Lower(token) == STANDARD_WEEK[d]
    ensures FiresOn(token, day) <==> day == d
    ensures Normalise(token) == Ok(STANDARD_WEEK[d])
  {
    hide FiresOn, Normalise;
    MeansName(token, d);
    TokenIsItsDay(token, d, day);
  }

  lemma MeansName(token: string, d: nat)
    requires d < 7 && Lower(token) == STANDARD_WEEK[d]
    ensures Means(token, d)
  {
    hide Lower;
  }

  lemma MeantSays(token: string, d: nat)
    requires Means(token, d) && '-' !in token && '/' !in token && token != "*"
    ensures Says(token, Range(d, d, 1))
  {
    hide Means;
  }

  /** A star with a step stands for every step-th day from Sunday. */
  lemma StarSteps(rawStep: string, day: nat)
    requires IsDigits(rawStep) && ToNat(rawStep) >= 1
    ensures FiresOn("*/" + rawStep, day) <==> exists n: nat :: LandsOn(Range(0, 6, ToNat(rawStep)), n, day)
  {
    DigitsOnly(rawStep);
    var part := "*/" + rawStep;
    assert part == "*" + "/" + rawStep;
    assert IsStepped(part, "*", rawStep) && part[1] == '/';
    assert ',' !in part;
    OnePartFires(part, Range(0, 6, ToNat(rawStep)), day);
  }

  /** A range with a step stands for every step-th day from its first to its last; one that ends
      on Sunday goes on to the end of the week. */
  lemma RangeSteps(first: string, last: string, rawStep: string, low: nat, end: nat, day: nat)
    requires Means(first, low) && Means(last, end) && IsDigits(rawStep) && ToNat(rawStep) >= 1
    requires var high := if end == 0 && low > 0 then 7 else end; low <= high
    ensures var high := if end == 0 && low > 0 then 7 else end;
            FiresOn(first + "-" + last + "/" + rawStep, day)
            <==> exists n: nat :: LandsOn(Range(low, high, ToNat(rawStep)), n, day)
  {
    DigitsOnly(rawStep);
    MeantIsPlain(first, low);
    MeantIsPlain(last, end);
    var high := if end == 0 && low > 0 then 7 else end;
    var body := first + "-" + last;
    var part := body + "/" + rawStep;
    assert body[|first|] == '-' && part[|body|] == '/';
    assert IsPair(body, first, last) && Spans(body, low, high);
    assert IsStepped(part, body, rawStep);
    assert Says(part, Range(low, high, ToNat(rawStep)));
    OnePartFires(part, Range(low, high, ToNat(rawStep)), day);
  }

  lemma DigitsOnly(s: string)
    requires IsDigits(s)
    ensures ',' !in s && '-' !in s && '/' !in s && s != "*"
  {
    assert IsDigit(s[0]) && "*"[0] == '*';
  }

  lemma LettersOnly(token: string, d: nat)
    requires d < 7 && Lower(token) == STANDARD_WEEK[d]
    ensures ',' !in token && '-' !in token && '/' !in token && token != "*"
  {
    var low := STANDARD_WEEK[d];
    assert |token| == |Lower(token)| == |low| == 3;
    assert forall i :: 0 <= i < 3 ==> LowerChar(token[i]) == low[i] && 'a' <= low[i] <= 'z';
  }

  lemma MeantIsPlain(token: string, d: nat)
    requires Means(token, d)
    ensures ',' !in token && '-' !in token && '/' !in token && token != "*"
  {
    if IsDigits(token) {
      DigitsOnly(token);
    } else {
      LettersOnly(token, d);
    }
  }

  lemma OneDayOnly(d: nat, day: nat)
    ensures InRange(Range(d, d, 1), day) <==> day == d % 7
  {
    if day == d % 7 {
      assert LandsOn(Range(d, d, 1), 0, day);
    }
  }

  lemma SameDaySpelled(field: string, d: nat)
    requires d <= 7 && field != "*" && ',' !in field && Says(field, Range(d, d, 1))
    ensures Normalise(field) == Ok(STANDARD_WEEK[d % 7])
  {
    hide Says, ParsePart;
    PartIsMeant(field, Range(d, d, 1));
    SplitIsUnique([field], ',');
    assert Split(field, ',') == [field] && [field][1..] == [];
    assert Steps(Range(d + 1, d, 1)) == {};
    assert Chosen([]) == Ok({});
    assert Chosen([field]) == Ok({d % 7} + {});
    SpelledDay(d % 7);
  }

  lemma SpelledDay(d: nat)
    requires d < 7
    ensures Spell({d}) == STANDARD_WEEK[d]
  {
    NamesOfOne(d, 0);
  }

  lemma {:induction false} NamesOfOne(d: nat, k: nat)
    requires d < 7 && k <= 7
    ensures NamesFrom({d}, k) == if k <= (d + 6) % 7 then [STANDARD_WEEK[d]] else []
    decreases 7 - k
  {
    if k < 7 {
      NamesOfOne(d, k + 1);
    }
  }

  /** Rewriting a rewritten field changes nothing, and the rewriting is a normal form: two
      fields come out the same exactly when they stand for the same days. */
  lemma NormaliseIsNormalForm(a: string, b: string)
    requires Normalise(a).Ok? && Normalise(b).Ok?
    ensures Normalise(Normalise(a).value) == Normalise(a)
    ensures Normalise(a) == Normalise(b) <==> forall day: nat :: FiresOn(a, day) <==> FiresOn(b, day)
  {
    hide Split, Spell, Chosen, InParts, ParsePart;
    NormalForm(a);
    NormalForm(b);
    NormalisePreservesDays(a);
    NormalisePreservesDays(b);
    var chosenA, chosenB := Chosen(Split(a, ',')).value, Chosen(Split(b, ',')).value;
    if forall day: nat :: FiresOn(a, day) <==> FiresOn(b, day) {
      forall day: nat
        ensures day in chosenA <==> day in chosenB
      {
        ChosenIsMeant(Split(a, ','), day);
        ChosenIsMeant(Split(b, ','), day);
        assert FiresOn(a, day) <==> FiresOn(b, day);
      }
      assert chosenA == chosenB;
    }
  }

  lemma NormalForm(field: string)
    requires Normalise(field).Ok?
    ensures Chosen(Split(field, ',')).Ok?
    ensures Normalise(field) == Ok(Spell(Chosen(Split(field, ',')).value))
    ensures Normalise(Normalise(field).value) == Normalise(field)
  {
    hide Split, Spell, Chosen;
    if field == "*" {
      StarIsAllDays();
      SpellReadsBack({0, 1, 2, 3, 4, 5, 6});
      FullWeek({0, 1, 2, 3, 4, 5, 6});
    } else {
      ChosenIsWeek(Split(field, ','));
      SpellReadsBack(Chosen(Split(field, ',')).value);
    }
  }
}
