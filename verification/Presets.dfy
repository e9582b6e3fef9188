/** Cron expressions and the presets of the schedule editor (`schedule.py`).

    A preset is compiled to a cron expression, which is what is stored, and read back from it
    when the editor opens again. The range checks of single fields are the trigger library's:
    they are a parameter here, of which only `FieldBounds` is assumed. */
module Presets {
  import opened Splitting
  import opened Text
  import opened Wrappers
  import opened Weekdays

  // ---------------------------------------------------------------- expressions

  datatype CronFields = CronFields(minute: string, hour: string, day: string, month: string, dayOfWeek: string)

  function Expression(f: CronFields): string {
    Spoken([f.minute, f.hour, f.day, f.month, f.dayOfWeek])
  }

  datatype ScheduleError =
    | NotFiveFields
    | NotPlain
    | BadWeekdays(error: FieldError)
    | DayAndWeekday
    | OutOfRange
    | BadTime
    | UnknownDay
    | NoDay
    | BadInterval

  /** `^[0-9*\/,\-]+$` */
  predicate IsPlain(s: string) {
    s != "" && forall i :: 0 <= i < |s| ==> IsDigit(s[i]) || s[i] in {'*', '/', ',', '-'}
  }

  /** `parse_fields`. */
  function ParseFields(expression: string, accepts: CronFields -> bool): Result<CronFields, ScheduleError> {
    var parts := Words(expression);
    if |parts| != 5 then Err(NotFiveFields)
    else if !(IsPlain(parts[0]) && IsPlain(parts[1]) && IsPlain(parts[2]) && IsPlain(parts[3])) then Err(NotPlain)
    else
      var weekdays := Normalise(parts[4]);
      if weekdays.Err? then Err(BadWeekdays(weekdays.error))
      else
        var fields := CronFields(parts[0], parts[1], parts[2], parts[3], weekdays.value);
        if fields.day != "*" && fields.dayOfWeek != "*" then Err(DayAndWeekday)
        else if !accepts(fields) then Err(OutOfRange)
        else Ok(fields)
  }

  // ---------------------------------------------------------------- when an expression fires

  /** The values a minute or hour field matches: a list of `*`, numbers and ranges, with steps. */
  ghost predicate Matches(field: string, v: nat) {
    exists i :: 0 <= i < |Split(field, ',')| && PieceMatches(Split(field, ',')[i], v)
  }

  ghost predicate PieceMatches(piece: string, v: nat) {
    var (body, slash, raw) := Partition(piece, '/');
    var step := if slash && IsDigits(raw) then ToNat(raw) else 1;
    if step == 0 then false
    else if body == "*" then v % step == 0
    else if '-' in body then
      var (first, _, last) := Partition(body, '-');
      IsDigits(first) && IsDigits(last) && ToNat(first) <= v <= ToNat(last) && (v - ToNat(first)) % step == 0
    else IsDigits(body) && v == ToNat(body)
  }

  ghost predicate Fires(f: CronFields, minute: nat, hour: nat, weekday: nat) {
    Matches(f.minute, minute) && Matches(f.hour, hour) && FiresOn(f.dayOfWeek, weekday)
  }

  ghost predicate SameFirings(f: CronFields, g: CronFields) {
    && f.day == g.day && f.month == g.month
    && forall minute, hour, weekday :: Fires(f, minute, hour, weekday) <==> Fires(g, minute, hour, weekday)
  }

  // ---------------------------------------------------------------- presets

  datatype Mode = Daily | Weekly | Hourly | Custom

  datatype Preset = Preset(mode: Mode, time: string, weekdays: seq<string>, everyHours: int, cron: string)

  const HOURLY_CHOICES: set<int> := {1, 2, 3, 4, 6, 8, 12}

  /** `_clock`: hour and minute of `3:00` or `03:00`. */
  function Clock(value: string): (r: Result<(nat, nat), ScheduleError>)
    ensures r.Ok? ==> r.value.0 < 24 && r.value.1 < 60
  {
    var (hour, colon, minute) := Partition(Strip(value), ':');
    if colon && |hour| <= 2 && IsDigits(hour) && ToNat(hour) < 24 && |minute| == 2 && IsDigits(minute) && ToNat(minute) < 60
    then Ok((ToNat(hour), ToNat(minute)))
    else Err(BadTime)
  }

  function TimeText(hour: nat, minute: nat): string {
    Padded(hour) + ":" + Padded(minute)
  }

  function DaysNamed(name: string): set<nat> {
    set k: nat | k < 7 && DayName(k) == name :: CronNumber(k)
  }

  /** The days of the week a list of names picks, upper or lower case. */
  function Picked(weekdays: seq<string>): (r: Result<set<nat>, ScheduleError>)
    ensures r.Ok? ==> IsWeek(r.value)
  {
    if weekdays == [] then Ok({})
    else
      var rest := Picked(weekdays[1..]);
      var day := Lower(weekdays[0]);
      if rest.Err? then rest
      else if exists k :: 0 <= k < 7 && DayName(k) == day then
        Ok(DaysNamed(day) + rest.value)
      else Err(UnknownDay)
  }

  function EveryHours(n: int): string
    requires n > 0
  {
    if n == 1 then "*" else "*/" + FromNat(n)
  }

  /** `compile_preset`. */
  function CompilePreset(p: Preset): Result<string, ScheduleError> {
    if p.mode.Custom? then Ok(Spoken(Words(p.cron)))
    else
      var clock := Clock(p.time);
      if clock.Err? then Err(clock.error)
      else
        var (hour, minute) := clock.value;
        match p.mode
        case Daily => Ok(Spoken([FromNat(minute), FromNat(hour), "*", "*", "*"]))
        case Weekly =>
          var picked := Picked(p.weekdays);
          if picked.Err? then Err(picked.error)
          else if picked.value == {} then Err(NoDay)
          else Ok(Spoken([FromNat(minute), FromNat(hour), "*", "*", Spell(picked.value)]))
        case Hourly =>
          if p.everyHours !in HOURLY_CHOICES then Err(BadInterval)
          else Ok(Spoken([FromNat(minute), EveryHours(p.everyHours), "*", "*", "*"]))
  }

  /** The number in an hour field that is `*`, a slash and a number. */
  function StepOf(hour: string): Option<nat> {
    if |hour| > 2 && hour[..2] == "*/" && IsDigits(hour[2..]) then Some(ToNat(hour[2..])) else None
  }

  /** `read_preset`. */
  function ReadPreset(expression: string, accepts: CronFields -> bool): Preset {
    var parsed := ParseFields(expression, accepts);
    if parsed.Err? then Preset(Custom, "03:00", [], 6, expression)
    else PresetOf(parsed.value)
  }

  function PresetOf(f: CronFields): Preset {
    var plain := f.day == "*" && f.month == "*" && IsDigits(f.minute);
    if plain && IsDigits(f.hour) then
      var time := TimeText(ToNat(f.hour), ToNat(f.minute));
      if f.dayOfWeek == "*" then Preset(Daily, time, [], 6, "")
      else Preset(Weekly, time, Split(f.dayOfWeek, ','), 6, "")
    else if plain && f.dayOfWeek == "*" && f.hour == "*" then
      Preset(Hourly, TimeText(0, ToNat(f.minute)), [], 1, "")
    else if plain && f.dayOfWeek == "*" && StepOf(f.hour).Some? && StepOf(f.hour).value in HOURLY_CHOICES then
      Preset(Hourly, TimeText(0, ToNat(f.minute)), [], StepOf(f.hour).value, "")
    else Preset(Custom, "03:00", [], 6, Expression(f))
  }

  /** What is assumed of the library's range checks: they let through what the presets compile
      to, and no number that is not a minute or an hour. */
  ghost predicate FieldBounds(accepts: CronFields -> bool) {
    && (forall minute: nat, hour: nat, days: string :: minute < 60 && hour < 24 && Normalise(days) == Ok(days) ==>
          accepts(CronFields(FromNat(minute), FromNat(hour), "*", "*", days)))
    && (forall minute: nat, n: int :: minute < 60 && n in HOURLY_CHOICES ==>
          accepts(CronFields(FromNat(minute), EveryHours(n), "*", "*", "*")))
    && (forall f :: accepts(f) && IsDigits(f.minute) ==> ToNat(f.minute) < 60)
    && (forall f :: accepts(f) && IsDigits(f.hour) ==> ToNat(f.hour) < 24)
  }

  /** The form in which a preset comes back: the time padded, the days in the order of the week,
      seven days as daily, and no hour for a preset that repeats within the day. */
  function NormalPreset(p: Preset): Preset
    requires CompilePreset(p).Ok? && !p.mode.Custom?
  {
    var (hour, minute) := Clock(p.time).value;
    match p.mode
    case Daily => Preset(Daily, TimeText(hour, minute), [], 6, "")
    case Weekly =>
      var picked := Picked(p.weekdays).value;
      if |picked| == 7 then Preset(Daily, TimeText(hour, minute), [], 6, "")
      else Preset(Weekly, TimeText(hour, minute), NamesFrom(picked, 0), 6, "")
    case Hourly => Preset(Hourly, TimeText(0, minute), [], p.everyHours, "")
  }

  // ---------------------------------------------------------------- pieces of the proofs

  lemma DigitsArePlain(s: string)
    requires IsDigits(s)
    ensures IsPlain(s) && IsWord(s) && s != "*"
  {
    assert IsDigit(s[0]);
  }

  lemma PlainIsWord(s: string)
    requires IsPlain(s)
    ensures IsWord(s)
  {
  }

  lemma SpellIsWord(chosen: set<nat>)
    requires IsWeek(chosen) && chosen != {}
    ensures IsWord(Spell(chosen))
  {
    hide Chosen, NamesFrom, DaysFrom;
    if |chosen| != 7 {
      SomeNames(chosen);
      NamesReadBack(chosen, 0);
      NamesAreWords(chosen, 0);
      JoinedChars(NamesFrom(chosen, 0), ',');
      NamesAreNoStar(NamesFrom(chosen, 0));
    }
  }

  lemma SomeNames(chosen: set<nat>)
    requires IsWeek(chosen) && chosen != {}
    ensures NamesFrom(chosen, 0) != []
  {
    hide NamesFrom, DaysFrom;
    NamesReadBack(chosen, 0);
    DaysFromAll(chosen);
    assert Chosen([]) == Ok({});
  }

  lemma {:induction false} NamesAreWords(chosen: set<nat>, k: nat)
    requires k <= 7
    ensures AreWords(NamesFrom(chosen, k))
    decreases 7 - k
  {
    if k < 7 {
      NamesAreWords(chosen, k + 1);
      assert IsWord(DayName(k));
    }
  }

  /** Five words that are spoken with one space between them are read as those five fields. */
  lemma FieldsReadBack(f: CronFields)
    requires IsWord(f.minute) && IsWord(f.hour) && IsWord(f.day) && IsWord(f.month) && IsWord(f.dayOfWeek)
    ensures Words(Expression(f)) == [f.minute, f.hour, f.day, f.month, f.dayOfWeek]
  {
    WordsOfSpoken([f.minute, f.hour, f.day, f.month, f.dayOfWeek]);
  }

  lemma ParseReadsBack(f: CronFields, accepts: CronFields -> bool)
    requires IsPlain(f.minute) && IsPlain(f.hour) && IsPlain(f.day) && IsPlain(f.month) && IsWord(f.dayOfWeek)
    requires Normalise(f.dayOfWeek) == Ok(f.dayOfWeek) && (f.day == "*" || f.dayOfWeek == "*") && accepts(f)
    ensures ParseFields(Expression(f), accepts) == Ok(f)
  {
    PlainIsWord(f.minute);
    PlainIsWord(f.hour);
    PlainIsWord(f.day);
    PlainIsWord(f.month);
    FieldsReadBack(f);
  }

  lemma SpellNormal(chosen: set<nat>)
    requires IsWeek(chosen) && chosen != {}
    ensures Normalise(Spell(chosen)) == Ok(Spell(chosen))
  {
    hide Split, Chosen, Spell;
    SpellReadsBack(chosen);
  }

  lemma StarNormal()
    ensures Normalise("*") == Ok("*") && IsPlain("*") && IsWord("*")
  {
  }

  lemma EveryHoursPlain(n: int)
    requires n > 0
    ensures IsPlain(EveryHours(n)) && !IsDigits(EveryHours(n))
    ensures n != 1 ==> EveryHours(n) != "*" && StepOf(EveryHours(n)) == Some(n)
  {
    var hour := EveryHours(n);
    assert hour[0] == '*' && !IsDigit(hour[0]);
    if n != 1 {
      DigitsArePlain(FromNat(n));
      assert hour[..2] == "*/" && hour[2..] == FromNat(n);
      forall i | 0 <= i < |hour|
        ensures IsDigit(hour[i]) || hour[i] in {'*', '/', ',', '-'}
      {
        assert i >= 2 ==> hour[i] == FromNat(n)[i - 2];
      }
    }
  }

  lemma ReadDaily(minute: nat, hour: nat, accepts: CronFields -> bool)
    requires FieldBounds(accepts) && minute < 60 && hour < 24
    ensures var f := CronFields(FromNat(minute), FromNat(hour), "*", "*", "*");
            ParseFields(Expression(f), accepts) == Ok(f) &&
            ReadPreset(Expression(f), accepts) == Preset(Daily, TimeText(hour, minute), [], 6, "")
  {
    hide Normalise, Words, Spoken, ToNat, FromNat, Padded, IsPlain, IsDigits;
    StarNormal();
    DigitsArePlain(FromNat(minute));
    DigitsArePlain(FromNat(hour));
    ParseReadsBack(CronFields(FromNat(minute), FromNat(hour), "*", "*", "*"), accepts);
  }

  lemma ReadWeekly(minute: nat, hour: nat, chosen: set<nat>, accepts: CronFields -> bool)
    requires FieldBounds(accepts) && minute < 60 && hour < 24
    requires IsWeek(chosen) && chosen != {} && |chosen| != 7
    ensures var f := CronFields(FromNat(minute), FromNat(hour), "*", "*", Spell(chosen));
            ParseFields(Expression(f), accepts) == Ok(f) &&
            ReadPreset(Expression(f), accepts)
            == Preset(Weekly, TimeText(hour, minute), NamesFrom(chosen, 0), 6, "")
  {
    hide Normalise, Words, Spoken, ToNat, FromNat, Padded, IsPlain, IsDigits, Split, Spell, NamesFrom;
    StarNormal();
    DigitsArePlain(FromNat(minute));
    DigitsArePlain(FromNat(hour));
    SpellNormal(chosen);
    SpellIsWord(chosen);
    ParseReadsBack(CronFields(FromNat(minute), FromNat(hour), "*", "*", Spell(chosen)), accepts);
    SpellReadsBack(chosen);
    SpelledNames(chosen);
  }

  lemma ReadHourly(minute: nat, n: int, accepts: CronFields -> bool)
    requires FieldBounds(accepts) && minute < 60 && n in HOURLY_CHOICES
    ensures var f := CronFields(FromNat(minute), EveryHours(n), "*", "*", "*");
            ParseFields(Expression(f), accepts) == Ok(f) &&
            ReadPreset(Expression(f), accepts) == Preset(Hourly, TimeText(0, minute), [], n, "")
  {
    hide Normalise, Words, Spoken, ToNat, FromNat, Padded, IsPlain, IsDigits, EveryHours, StepOf;
    StarNormal();
    DigitsArePlain(FromNat(minute));
    EveryHoursPlain(n);
    OnceAnHour();
    ParseReadsBack(CronFields(FromNat(minute), EveryHours(n), "*", "*", "*"), accepts);
  }

  /** Reading back what a preset was compiled to gives the preset in its normal form. */
  lemma ReadAfterCompile(p: Preset, accepts: CronFields -> bool)
    requires FieldBounds(accepts) && CompilePreset(p).Ok? && !p.mode.Custom?
    ensures ReadPreset(CompilePreset(p).value, accepts) == NormalPreset(p)
  {
    hide ReadPreset, Spoken, TimeText, Spell, Clock, Picked, FromNat, EveryHours, NamesFrom, FieldBounds;
    var (hour, minute) := Clock(p.time).value;
    match p.mode
    case Daily =>
      ReadDaily(minute, hour, accepts);
    case Weekly =>
      var picked := Picked(p.weekdays).value;
      if |picked| == 7 {
        SpellReadsBack(picked);
        ReadDaily(minute, hour, accepts);
      } else {
        ReadWeekly(minute, hour, picked, accepts);
      }
    case Hourly =>
      ReadHourly(minute, p.everyHours, accepts);
  }

  lemma OnceAnHour()
    ensures EveryHours(1) == "*"
  {
  }

  lemma SpelledNames(chosen: set<nat>)
    requires IsWeek(chosen) && chosen != {} && |chosen| != 7
    ensures Split(Spell(chosen), ',') == NamesFrom(chosen, 0)
  {
    NamesReadBack(chosen, 0);
    DaysFromAll(chosen);
    assert Chosen([]) == Ok({});
    SplitIsUnique(NamesFrom(chosen, 0), ',');
  }

  // ---------------------------------------------------------------- and the other way round

  lemma PaddedIsShort(n: nat)
    requires n < 60
    ensures |Padded(n)| == 2 && IsDigits(Padded(n)) && ToNat(Padded(n)) == n
  {
    if n >= 10 {
      assert FromNat(n) == FromNat(n / 10) + [Digit(n % 10)];
    }
  }

  lemma ClockReadsBack(hour: nat, minute: nat)
    requires hour < 24 && minute < 60
    ensures Clock(TimeText(hour, minute)) == Ok((hour, minute))
  {
    hide Padded, ToNat;
    PaddedIsShort(hour);
    PaddedIsShort(minute);
    var time := TimeText(hour, minute);
    assert time[0] == Padded(hour)[0] && Last(time) == Padded(minute)[1];
    assert IsDigit(time[0]) && IsDigit(Last(time));
    StripKeeps(time);
    forall i | 0 <= i < |Padded(hour)|
      ensures Padded(hour)[i] != ':'
    {
      assert IsDigit(Padded(hour)[i]);
    }
    PartitionUnique(time, ':', Padded(hour), Padded(minute));
  }

  lemma {:induction false} NamesArePicked(chosen: set<nat>, k: nat)
    requires k <= 7
    ensures Picked(NamesFrom(chosen, k)) == Ok(DaysFrom(chosen, k))
    decreases 7 - k
  {
    if k < 7 {
      NamesArePicked(chosen, k + 1);
      var rest := NamesFrom(chosen, k + 1);
      if CronNumber(k) in chosen {
        NameIsItself(k);
        OneName(k);
        assert NamesFrom(chosen, k) == [DayName(k)] + rest;
        assert ([DayName(k)] + rest)[1..] == rest;
      } else {
        assert [] + rest == rest;
        assert DaysFrom(chosen, k) == DaysFrom(chosen, k + 1);
      }
    }
  }

  lemma OneName(k: nat)
    requires k < 7
    ensures DaysNamed(DayName(k)) == {CronNumber(k)}
  {
    forall i: nat | i < 7 && DayName(i) == DayName(k)
      ensures i == k
    {
      NameIsItself(i);
      NameIsItself(k);
    }
  }

  lemma MatchesNumber(s: string, v: nat)
    requires IsDigits(s)
    ensures Matches(s, v) <==> v == ToNat(s)
  {
    assert forall i :: 0 <= i < |s| ==> IsDigit(s[i]);
    OnePiece(s);
    PartitionNone(s, '/');
    assert s[0] != '*';
    assert PieceMatches(Split(s, ',')[0], v) <==> v == ToNat(s);
  }

  lemma OnePiece(s: string)
    requires ',' !in s
    ensures Split(s, ',') == [s]
  {
    SplitIsUnique([s], ',');
  }

  lemma MatchesStep(hour: string, v: nat)
    requires StepOf(hour).Some? && StepOf(hour).value > 0
    ensures Matches(hour, v) <==> v % StepOf(hour).value == 0
  {
    var raw := hour[2..];
    assert hour[..2][0] == '*' && hour[..2][1] == '/';
    assert forall i :: 2 <= i < |hour| ==> hour[i] == raw[i - 2] && IsDigit(raw[i - 2]);
    OnePiece(hour);
    assert hour == "*" + ['/'] + raw;
    PartitionUnique(hour, '/', "*", raw);
    assert PieceMatches(Split(hour, ',')[0], v) <==> v % StepOf(hour).value == 0;
  }

  lemma MatchesStar(v: nat)
    ensures Matches("*", v)
  {
    OnePiece("*");
    PartitionNone("*", '/');
    assert PieceMatches(Split("*", ',')[0], v);
  }

  lemma SameNumber(a: string, b: string)
    requires IsDigits(a) && IsDigits(b) && ToNat(a) == ToNat(b)
    ensures forall v :: Matches(a, v) <==> Matches(b, v)
  {
    forall v: nat
      ensures Matches(a, v) <==> Matches(b, v)
    {
      MatchesNumber(a, v);
      MatchesNumber(b, v);
    }
  }

  lemma SameStep(a: string, b: string)
    requires StepOf(a).Some? && StepOf(a).value > 0
    requires if StepOf(a).value == 1 then b == "*" else StepOf(b) == StepOf(a)
    ensures forall v :: Matches(a, v) <==> Matches(b, v)
  {
    forall v: nat
      ensures Matches(a, v) <==> Matches(b, v)
    {
      MatchesStep(a, v);
      if StepOf(a).value == 1 {
        MatchesStar(v);
      } else {
        MatchesStep(b, v);
      }
    }
  }

  /** What parsing yields: plain fields, and weekdays in their normal form. */
  lemma ParsedFields(expression: string, accepts: CronFields -> bool)
    requires ParseFields(expression, accepts).Ok?
    ensures var f := ParseFields(expression, accepts).value;
            && IsPlain(f.minute) && IsPlain(f.hour) && IsPlain(f.day) && IsPlain(f.month)
            && (f.day == "*" || f.dayOfWeek == "*") && accepts(f)
            && Normalise(f.dayOfWeek) == Ok(f.dayOfWeek) && IsWord(f.dayOfWeek)
            && exists chosen :: IsWeek(chosen) && chosen != {} && f.dayOfWeek == Spell(chosen)
  {
    hide Split, Chosen, Spell, Words, IsPlain;
    var weekdays := Words(expression)[4];
    NormalForm(weekdays);
    ChosenIsWeek(Split(weekdays, ','));
    SpellIsWord(Chosen(Split(weekdays, ',')).value);
  }

  /** Compiling what an expression was read as gives an expression that is accepted again and
      fires at the same times; one that is refused is still refused, for the same reason. */
  lemma CompileAfterRead(expression: string, accepts: CronFields -> bool)
    requires FieldBounds(accepts)
    ensures var compiled := CompilePreset(ReadPreset(expression, accepts));
            && compiled.Ok?
            && match ParseFields(expression, accepts) {
                 case Err(e) => ParseFields(compiled.value, accepts) == Err(e)
                 case Ok(f) =>
                   ParseFields(compiled.value, accepts).Ok? &&
                   SameFirings(f, ParseFields(compiled.value, accepts).value)
               }
  {
    hide Words, Normalise, SameFirings, FieldBounds, Spoken, PresetOf;
    var parsed := ParseFields(expression, accepts);
    if parsed.Err? {
      WordsAreWords(expression);
      WordsOfSpoken(Words(expression));
    } else {
      ParsedFields(expression, accepts);
      CompileAfterPreset(parsed.value, accepts);
    }
  }

  /** The same for the fields of an accepted expression. */
  lemma CompileAfterPreset(f: CronFields, accepts: CronFields -> bool)
    requires FieldBounds(accepts) && accepts(f)
    requires IsPlain(f.minute) && IsPlain(f.hour) && IsPlain(f.day) && IsPlain(f.month)
    requires (f.day == "*" || f.dayOfWeek == "*") && Normalise(f.dayOfWeek) == Ok(f.dayOfWeek) && IsWord(f.dayOfWeek)
    requires exists chosen :: IsWeek(chosen) && chosen != {} && f.dayOfWeek == Spell(chosen)
    ensures var compiled := CompilePreset(PresetOf(f));
            && compiled.Ok? && ParseFields(compiled.value, accepts).Ok?
            && SameFirings(f, ParseFields(compiled.value, accepts).value)
  {
    var chosen: set<nat> :| IsWeek(chosen) && chosen != {} && f.dayOfWeek == Spell(chosen);
    if PresetOf(f).mode.Daily? || PresetOf(f).mode.Weekly? {
      CompileAtTime(f, chosen, accepts);
    } else if PresetOf(f).mode.Hourly? {
      CompileEveryHours(f, accepts);
    } else {
      CompileCustom(f, accepts);
    }
  }

  lemma CompileAtTime(f: CronFields, chosen: set<nat>, accepts: CronFields -> bool)
    requires FieldBounds(accepts) && accepts(f) && IsWeek(chosen) && chosen != {} && f.dayOfWeek == Spell(chosen)
    requires PresetOf(f).mode.Daily? || PresetOf(f).mode.Weekly?
    ensures var compiled := CompilePreset(PresetOf(f));
            && compiled.Ok? && ParseFields(compiled.value, accepts).Ok?
            && SameFirings(f, ParseFields(compiled.value, accepts).value)
  {
    hide Split, Spell, Normalise, Words, Spoken, Clock, Picked, ToNat, FromNat, TimeText, NamesFrom, IsDigits, StepOf, Matches, ParseFields, FiresOn;
    var hour, minute := ToNat(f.hour), ToNat(f.minute);
    var g := CronFields(FromNat(minute), FromNat(hour), "*", "*", f.dayOfWeek);
    ClockReadsBack(hour, minute);
    SpellReadsBack(chosen);
    if |chosen| == 7 {
      ReadDaily(minute, hour, accepts);
    } else {
      ReadWeekly(minute, hour, chosen, accepts);
      SpelledNames(chosen);
      NamesArePicked(chosen, 0);
      DaysFromAll(chosen);
    }
    assert ParseFields(CompilePreset(PresetOf(f)).value, accepts) == Ok(g);
    SameNumber(f.minute, g.minute);
    SameNumber(f.hour, g.hour);
  }

  lemma CompileEveryHours(f: CronFields, accepts: CronFields -> bool)
    requires FieldBounds(accepts) && accepts(f) && PresetOf(f).mode.Hourly?
    ensures var compiled := CompilePreset(PresetOf(f));
            && compiled.Ok? && ParseFields(compiled.value, accepts).Ok?
            && SameFirings(f, ParseFields(compiled.value, accepts).value)
  {
    hide Split, Normalise, Words, Spoken, Clock, ToNat, FromNat, TimeText, IsDigits, StepOf, Matches, ParseFields, FiresOn, EveryHours;
    var minute, n := ToNat(f.minute), PresetOf(f).everyHours;
    var g := CronFields(FromNat(minute), EveryHours(n), "*", "*", "*");
    ClockReadsBack(0, minute);
    ReadHourly(minute, n, accepts);
    OnceAnHour();
    assert ParseFields(CompilePreset(PresetOf(f)).value, accepts) == Ok(g);
    SameNumber(f.minute, g.minute);
    if f.hour != "*" {
      EveryHoursPlain(n);
      SameStep(f.hour, g.hour);
    }
  }

  lemma CompileCustom(f: CronFields, accepts: CronFields -> bool)
    requires accepts(f) && PresetOf(f).mode.Custom?
    requires IsPlain(f.minute) && IsPlain(f.hour) && IsPlain(f.day) && IsPlain(f.month)
    requires (f.day == "*" || f.dayOfWeek == "*") && Normalise(f.dayOfWeek) == Ok(f.dayOfWeek) && IsWord(f.dayOfWeek)
    ensures CompilePreset(PresetOf(f)) == Ok(Expression(f)) && ParseFields(Expression(f), accepts) == Ok(f)
  {
    hide Normalise, Words, Spoken, IsPlain, IsWord;
    ParseReadsBack(f, accepts);
    PlainIsWord(f.minute);
    PlainIsWord(f.hour);
    PlainIsWord(f.day);
    PlainIsWord(f.month);
    FieldsReadBack(f);
  }

  // ---------------------------------------------------------------- what a preset asks for

  /** The text is a time of day, the hour of one or two digits, the minute of two. */
  ghost predicate IsTime(text: string, hour: nat, minute: nat) {
    exists h, m ::
      && Strip(text) == h + ":" + m && IsDigits(h) && |h| <= 2 && IsDigits(m) && |m| == 2
      && ToNat(h) == hour && hour < 24 && ToNat(m) == minute && minute < 60
  }

  lemma ClockReads(text: string, hour: nat, minute: nat)
    ensures Clock(text) == Ok((hour, minute)) <==> IsTime(text, hour, minute)
    ensures Clock(text).Err? ==> Clock(text) == Err(BadTime)
  {
    hide Strip;
    var (h, colon, m) := Partition(Strip(text), ':');
    if Clock(text) == Ok((hour, minute)) {
      assert Strip(text) == h + ":" + m;
    }
    if IsTime(text, hour, minute) {
      var h', m' :| && Strip(text) == h' + ":" + m' && IsDigits(h') && |h'| <= 2 && IsDigits(m') && |m'| == 2
                    && ToNat(h') == hour && hour < 24 && ToNat(m') == minute && minute < 60;
      NoColonInDigits(h');
      PartitionUnique(Strip(text), ':', h', m');
    }
  }

  lemma NoColonInDigits(s: string)
    requires IsDigits(s)
    ensures ':' !in s
  {
  }

  ghost predicate IsDayName(name: string) {
    Lower(name) in STANDARD_WEEK
  }

  /** Some name of the list, in any case, is that of the day. */
  ghost predicate PicksDay(names: seq<string>, day: nat) {
    day < 7 && exists i :: 0 <= i < |names| && Lower(names[i]) == STANDARD_WEEK[day]
  }

  lemma WeekIsWeek()
    ensures forall k: nat :: k < 7 ==> DayName(k) == STANDARD_WEEK[CronNumber(k)]
    ensures forall d: nat :: d < 7 ==> DayName((d + 6) % 7) == STANDARD_WEEK[d]
  {
  }

  lemma {:induction false} PickedAreNamed(names: seq<string>, day: nat)
    ensures Picked(names).Ok? <==> forall i :: 0 <= i < |names| ==> IsDayName(names[i])
    ensures Picked(names).Ok? ==> (day in Picked(names).value <==> PicksDay(names, day))
    ensures Picked(names).Ok? ==> (Picked(names).value == {} <==> names == [])
    ensures Picked(names).Err? ==> Picked(names) == Err(UnknownDay)
  {
    hide Lower, DayName, DaysNamed, STANDARD_WEEK, PicksDay;
    if names == [] {
      NoDayPicked(day);
    } else {
      PickedAreNamed(names[1..], day);
      OneDayNamed(Lower(names[0]));
      PicksOneByOne(names, day);
      assert forall i :: 1 <= i < |names| ==> names[i] == names[1..][i - 1];
    }
  }

  lemma NoDayPicked(day: nat)
    ensures !PicksDay([], day)
  {
  }

  lemma PicksOneByOne(names: seq<string>, day: nat)
    requires names != []
    ensures PicksDay(names, day) <==> (day < |STANDARD_WEEK| && Lower(names[0]) == STANDARD_WEEK[day]) || PicksDay(names[1..], day)
  {
    WeekHasSeven();
    hide Lower, STANDARD_WEEK;
    if PicksDay(names[1..], day) {
      var i :| 0 <= i < |names[1..]| && Lower(names[1..][i]) == STANDARD_WEEK[day];
      assert Lower(names[i + 1]) == STANDARD_WEEK[day];
    }
    if PicksDay(names, day) {
      var i :| 0 <= i < |names| && Lower(names[i]) == STANDARD_WEEK[day];
      assert i > 0 ==> Lower(names[1..][i - 1]) == STANDARD_WEEK[day];
    }
  }

  lemma OneDayNamed(name: string)
    ensures (exists k :: 0 <= k < 7 && DayName(k) == name) <==> name in STANDARD_WEEK
    ensures (exists k :: 0 <= k < 7 && DayName(k) == name) ==> DaysNamed(name) != {}
    ensures forall d: nat :: d in DaysNamed(name) <==> d < |STANDARD_WEEK| && STANDARD_WEEK[d] == name
    ensures forall d: nat :: d in DaysNamed(name) ==> d < 7
  {
    WeekIsWeek();
    WeekHasSeven();
    hide DayName, STANDARD_WEEK;
    if d :| 0 <= d < |STANDARD_WEEK| && STANDARD_WEEK[d] == name {
      assert DayName((d + 6) % 7) == name;
    }
    if k: nat :| k < 7 && DayName(k) == name {
      assert CronNumber(k) in DaysNamed(name);
      assert STANDARD_WEEK[CronNumber(k)] == name;
    }
    forall d: nat
      ensures d in DaysNamed(name) <==> d < |STANDARD_WEEK| && STANDARD_WEEK[d] == name
    {
      if d < 7 {
        ShiftedBack(d);
        assert d in DaysNamed(name) <==> DayName((d + 6) % 7) == name;
      }
    }
  }

  lemma ShiftedBack(d: nat)
    requires d < 7
    ensures CronNumber((d + 6) % 7) == d
    ensures forall k: nat :: k < 7 && CronNumber(k) == d ==> k == (d + 6) % 7
  {
  }

  lemma WeekHasSeven()
    ensures |STANDARD_WEEK| == 7
  {
  }

  lemma SpellFires(chosen: set<nat>, day: nat)
    requires IsWeek(chosen) && chosen != {}
    ensures FiresOn(Spell(chosen), day) <==> day in chosen
  {
    hide Spell, Split, Chosen;
    SpellReadsBack(chosen);
    ChosenIsMeant(Split(Spell(chosen), ','), day);
  }

  /** When a preset asks for a run. */
  ghost predicate AsksFor(p: Preset, minute: nat, hour: nat, weekday: nat) {
    exists h: nat :: IsTime(p.time, h, minute) &&
      match p.mode
      case Daily => hour == h && weekday < 7
      case Weekly => hour == h && PicksDay(p.weekdays, weekday)
      case Hourly => p.everyHours > 0 && hour % p.everyHours == 0 && weekday < 7
      case Custom => false
  }

  /** An accepted preset is compiled to an expression that is accepted, restricts no day of the
      month and no month, and fires exactly when the preset asks for. */
  lemma PresetFires(p: Preset, accepts: CronFields -> bool)
    requires FieldBounds(accepts) && CompilePreset(p).Ok? && !p.mode.Custom?
    ensures var parsed := ParseFields(CompilePreset(p).value, accepts);
            && parsed.Ok? && parsed.value.day == "*" && parsed.value.month == "*"
            && forall minute, hour, weekday :: Fires(parsed.value, minute, hour, weekday) <==> AsksFor(p, minute, hour, weekday)
  {
    hide ReadPreset, ParseFields, Spoken, TimeText, Spell, Clock, Picked, FromNat, ToNat, EveryHours, NamesFrom, FieldBounds, FiresOn, Matches, IsTime, PicksDay;
    var (h, m) := Clock(p.time).value;
    ClockReads(p.time, h, m);
    var f := CompiledFields(p, accepts);
    forall minute: nat, hour: nat, weekday: nat
      ensures Fires(f, minute, hour, weekday) <==> AsksFor(p, minute, hour, weekday)
    {
      forall h': nat
        ensures IsTime(p.time, h', minute) <==> h' == h && minute == m
      {
        ClockReads(p.time, h', minute);
      }
      FieldsFire(p, f, h, m, minute, hour, weekday);
    }
  }

  ghost function FieldsOf(p: Preset): CronFields
    requires CompilePreset(p).Ok? && !p.mode.Custom?
  {
    var (h, m) := Clock(p.time).value;
    match p.mode
    case Daily => CronFields(FromNat(m), FromNat(h), "*", "*", "*")
    case Weekly => CronFields(FromNat(m), FromNat(h), "*", "*", Spell(Picked(p.weekdays).value))
    case Hourly => CronFields(FromNat(m), EveryHours(p.everyHours), "*", "*", "*")
  }

  lemma CompiledFields(p: Preset, accepts: CronFields -> bool) returns (f: CronFields)
    requires FieldBounds(accepts) && CompilePreset(p).Ok? && !p.mode.Custom?
    ensures ParseFields(CompilePreset(p).value, accepts) == Ok(f) && f == FieldsOf(p)
  {
    hide ReadPreset, ParseFields, Spoken, TimeText, Spell, Clock, Picked, FromNat, EveryHours, NamesFrom, FieldBounds;
    f := FieldsOf(p);
    var (hour, minute) := Clock(p.time).value;
    match p.mode
    case Daily =>
      ReadDaily(minute, hour, accepts);
    case Weekly =>
      var picked := Picked(p.weekdays).value;
      if |picked| == 7 {
        SpellReadsBack(picked);
        ReadDaily(minute, hour, accepts);
      } else {
        ReadWeekly(minute, hour, picked, accepts);
      }
    case Hourly =>
      ReadHourly(minute, p.everyHours, accepts);
  }

  lemma FieldsFire(p: Preset, f: CronFields, h: nat, m: nat, minute: nat, hour: nat, weekday: nat)
    requires CompilePreset(p).Ok? && !p.mode.Custom? && f == FieldsOf(p) && Clock(p.time) == Ok((h, m))
    ensures Fires(f, minute, hour, weekday) <==>
              minute == m && match p.mode
                             case Daily => hour == h && weekday < 7
                             case Weekly => hour == h && PicksDay(p.weekdays, weekday)
                             case Hourly => p.everyHours > 0 && hour % p.everyHours == 0 && weekday < 7
                             case Custom => false
  {
    hide Spoken, Spell, Clock, Picked, FromNat, ToNat, EveryHours, FiresOn, Matches, PicksDay;
    MatchesNumber(FromNat(m), minute);
    match p.mode
    case Daily =>
      MatchesNumber(FromNat(h), hour);
      StarFires(weekday);
    case Weekly =>
      MatchesNumber(FromNat(h), hour);
      PickedAreNamed(p.weekdays, weekday);
      SpellFires(Picked(p.weekdays).value, weekday);
    case Hourly =>
      StarFires(weekday);
      OnceAnHour();
      MatchesStar(hour);
      if p.everyHours != 1 {
        EveryHoursPlain(p.everyHours);
        MatchesStep(EveryHours(p.everyHours), hour);
      }
  }

  lemma StarFires(day: nat)
    ensures FiresOn("*", day) <==> day < 7
  {
    hide Split, Chosen;
    StarIsAllDays();
    ChosenIsMeant(Split("*", ','), day);
  }

  /** Which presets are refused, and why. */
  lemma RefusedPresets(p: Preset)
    requires !p.mode.Custom?
    ensures var r := CompilePreset(p);
            var timed := exists h, m :: IsTime(p.time, h, m);
            var known := forall i :: 0 <= i < |p.weekdays| ==> IsDayName(p.weekdays[i]);
            && (r == Err(BadTime) <==> !timed)
            && (r == Err(UnknownDay) <==> timed && p.mode.Weekly? && !known)
            && (r == Err(NoDay) <==> timed && p.mode.Weekly? && p.weekdays == [])
            && (r == Err(BadInterval) <==> timed && p.mode.Hourly? && p.everyHours !in {1, 2, 3, 4, 6, 8, 12})
            && (r.Err? ==> r.error in {BadTime, UnknownDay, NoDay, BadInterval})
  {
    hide Clock, Picked, IsTime, IsDayName, Spoken, Spell, EveryHours;
    PickedAreNamed(p.weekdays, 0);
    forall h: nat, m: nat
      ensures Clock(p.time) == Ok((h, m)) <==> IsTime(p.time, h, m)
    {
      ClockReads(p.time, h, m);
    }
    ClockReads(p.time, 0, 0);
    if Clock(p.time).Ok? {
      assert IsTime(p.time, Clock(p.time).value.0, Clock(p.time).value.1);
    }
  }

  const PLAIN_CHARS := "0123456789*/,-"

  ghost predicate AllPlain(s: string) {
    s != "" && forall c :: c in s ==> c in PLAIN_CHARS
  }

  lemma PlainIsListed(s: string)
    ensures IsPlain(s) <==> AllPlain(s)
  {
    forall c | IsDigit(c) || c in {'*', '/', ',', '-'}
      ensures c in PLAIN_CHARS
    {
      assert PLAIN_CHARS[if IsDigit(c) then c as int - '0' as int else if c == '*' then 10 else if c == '/' then 11
                         else if c == ',' then 12 else 13] == c;
    }
    assert forall c :: c in PLAIN_CHARS ==> IsDigit(c) || c in {'*', '/', ',', '-'};
  }

  lemma StarOnlyForAll(field: string)
    requires Normalise(field).Ok?
    ensures Normalise(field) == Ok("*") <==> forall day: nat :: day < 7 ==> FiresOn(field, day)
  {
    hide FiresOn, Normalise;
    StarNormal();
    NormaliseIsNormalForm(field, "*");
    forall day: nat
      ensures FiresOn("*", day) <==> day < 7
      ensures FiresOn(field, day) ==> day < 7
    {
      StarFires(day);
      if FiresOn(field, day) {
        FiresInWeek(field, day);
      }
    }
  }

  lemma FiresInWeek(field: string, day: nat)
    requires Normalise(field).Ok? && FiresOn(field, day)
    ensures day < 7
  {
    hide Split, Chosen, Spell;
    NormalForm(field);
    ChosenIsWeek(Split(field, ','));
    ChosenIsMeant(Split(field, ','), day);
  }

  /** Which expressions are refused, and why: the first reason that applies. */
  lemma RefusedExpressions(expression: string, accepts: CronFields -> bool)
    ensures var parts, r := Words(expression), ParseFields(expression, accepts);
            && (r == Err(NotFiveFields) <==> |parts| != 5)
            && (r == Err(NotPlain) <==> |parts| == 5 && exists i :: 0 <= i < 4 && !AllPlain(parts[i]))
            && (r.Ok? ==>
                  && |parts| == 5 && (forall i :: 0 <= i < 4 ==> AllPlain(parts[i])) && WellFormed(parts[4])
                  && r.value == CronFields(parts[0], parts[1], parts[2], parts[3], r.value.dayOfWeek) && accepts(r.value)
                  && forall day: nat :: FiresOn(r.value.dayOfWeek, day) <==> FiresOn(parts[4], day))
            && (r.Err? && r.error.BadWeekdays? ==> IsRefusedFor(parts[4], r.error.error))
            && (r == Err(DayAndWeekday) <==>
                  && |parts| == 5 && (forall i :: 0 <= i < 4 ==> AllPlain(parts[i])) && WellFormed(parts[4])
                  && parts[2] != "*" && exists day: nat :: day < 7 && !FiresOn(parts[4], day))
            && (r.Err? ==> r.error.BadWeekdays? || r.error in {NotFiveFields, NotPlain, DayAndWeekday, OutOfRange})
  {
    hide Words, Normalise, IsPlain, FiresOn, WellFormed, IsRefusedFor, AllPlain;
    var parts := Words(expression);
    if |parts| == 5 {
      PlainIsListed(parts[0]);
      PlainIsListed(parts[1]);
      PlainIsListed(parts[2]);
      PlainIsListed(parts[3]);
      NormalisePreservesDays(parts[4]);
      if Normalise(parts[4]).Ok? {
        StarOnlyForAll(parts[4]);
      }
      assert parts[0] == parts[..4][0] && parts[1] == parts[..4][1] && parts[2] == parts[..4][2] && parts[3] == parts[..4][3];
    }
  }

  /** `FieldBounds` can be met: by checks that look at nothing but the two ranges. */
  lemma FieldBoundsCanBeMet()
    ensures FieldBounds((f: CronFields) => (IsDigits(f.minute) ==> ToNat(f.minute) < 60)
                                           && (IsDigits(f.hour) ==> ToNat(f.hour) < 24))
  {
    forall n | n in HOURLY_CHOICES
      ensures !IsDigits(EveryHours(n))
    {
      EveryHoursPlain(n);
    }
  }
}
