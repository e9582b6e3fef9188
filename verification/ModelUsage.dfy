/** Usage of language models per day (`model_usage.py`).

    LiteLLM answers in pages of day entries. They are added up per model and day, and the report
    shows the same numbers by model, by day and in total. Days are counted from some epoch;
    spend is exact. */
module ModelUsage {
  import opened Wrappers

  datatype Metrics = Metrics(prompt: int, completion: int, spend: real, requests: int, failed: int)

  const ZERO: Metrics := Metrics(0, 0, 0.0, 0, 0)

  function Add(a: Metrics, b: Metrics): Metrics {
    Metrics(a.prompt + b.prompt, a.completion + b.completion, a.spend + b.spend, a.requests + b.requests, a.failed + b.failed)
  }

  /** One model group of an entry. A name that is no text is empty, and `isDict` is whether the
      group holds anything that can be read. */
  datatype Item = Item(name: string, isDict: bool, metrics: Metrics)

  /** One entry of an answer: its day if it has one, and its groups. */
  datatype Entry = Entry(day: Option<int>, items: seq<Item>)

  datatype Window = Window(start: int, end: int)

  type Days = map<int, Metrics>
  type Usage = map<string, Days>

  predicate Counts(e: Entry, w: Window) {
    e.day.Some? && w.start <= e.day.value <= w.end
  }

  predicate Names(item: Item) {
    item.name != "" && item.isDict
  }

  // ---------------------------------------------------------------- adding up

  function AddItem(usage: Usage, day: int, item: Item): Usage {
    if !Names(item) then usage
    else
      var days := if item.name in usage then usage[item.name] else map[];
      usage[item.name := days[day := Add(if day in days then days[day] else ZERO, item.metrics)]]
  }

  function AddItems(usage: Usage, day: int, items: seq<Item>): Usage
    decreases |items|
  {
    if items == [] then usage else AddItems(AddItem(usage, day, items[0]), day, items[1..])
  }

  function AddEntry(usage: Usage, w: Window, e: Entry): Usage {
    if Counts(e, w) then AddItems(usage, e.day.value, e.items) else usage
  }

  function AddEntries(usage: Usage, w: Window, entries: seq<Entry>): Usage
    decreases |entries|
  {
    if entries == [] then usage else AddEntries(AddEntry(usage, w, entries[0]), w, entries[1..])
  }

  /** `parse_usage`. */
  method ParseUsage(entries: seq<Entry>, w: Window) returns (usage: Usage)
    ensures usage == AddEntries(map[], w, entries)
  {
    usage := map[];
    var i := 0;
    assert entries[0..] == entries;
    while i < |entries|
      invariant i <= |entries|
      invariant AddEntries(usage, w, entries[i..]) == AddEntries(map[], w, entries)
    {
      var e := entries[i];
      assert entries[i..][1..] == entries[i + 1..];
      i := i + 1;
      if !Counts(e, w) {
        continue;
      }
      ghost var before := usage;
      var k := 0;
      assert e.items[0..] == e.items;
      while k < |e.items|
        invariant k <= |e.items|
        invariant AddItems(usage, e.day.value, e.items[k..]) == AddItems(before, e.day.value, e.items)
      {
        var item := e.items[k];
        assert e.items[k..][1..] == e.items[k + 1..];
        if Names(item) {
          var days := if item.name in usage then usage[item.name] else map[];
          var sum := Add(if e.day.value in days then days[e.day.value] else ZERO, item.metrics);
          usage := usage[item.name := days[e.day.value := sum]];
        }
        k := k + 1;
      }
    }
  }

  // ---------------------------------------------------------------- what the sums are

  /** What is kept of a model and a day: nothing, or a sum. */
  function At(usage: Usage, name: string, day: int): Option<Metrics> {
    if name in usage && day in usage[name] then Some(usage[name][day]) else None
  }

  function Plus(a: Option<Metrics>, b: Option<Metrics>): Option<Metrics> {
    if a.None? then b else if b.None? then a else Some(Add(a.value, b.value))
  }

  function ItemShare(item: Item, name: string): Option<Metrics> {
    if Names(item) && item.name == name then Some(item.metrics) else None
  }

  function ItemsShare(items: seq<Item>, name: string): Option<Metrics> {
    if items == [] then None else Plus(ItemShare(items[0], name), ItemsShare(items[1..], name))
  }

  /** What one entry says about a model and a day, by itself. */
  function Share(e: Entry, w: Window, name: string, day: int): Option<Metrics> {
    if Counts(e, w) && e.day.value == day then ItemsShare(e.items, name) else None
  }

  function Shares(entries: seq<Entry>, w: Window, name: string, day: int): Option<Metrics> {
    if entries == [] then None else Plus(Share(entries[0], w, name, day), Shares(entries[1..], w, name, day))
  }

  lemma PlusAssociates(a: Option<Metrics>, b: Option<Metrics>, c: Option<Metrics>)
    ensures Plus(Plus(a, b), c) == Plus(a, Plus(b, c)) && Plus(a, b) == Plus(b, a)
  {
  }

  lemma {:induction false} AddItemsAt(usage: Usage, day: int, items: seq<Item>, name: string, at: int)
    ensures At(AddItems(usage, day, items), name, at)
            == if at == day then Plus(At(usage, name, at), ItemsShare(items, name)) else At(usage, name, at)
    decreases |items|
  {
    if items != [] {
      AddItemsAt(AddItem(usage, day, items[0]), day, items[1..], name, at);
      PlusAssociates(At(usage, name, at), ItemShare(items[0], name), ItemsShare(items[1..], name));
    }
  }

  lemma {:induction false} AddEntriesAt(usage: Usage, w: Window, entries: seq<Entry>, name: string, day: int)
    ensures At(AddEntries(usage, w, entries), name, day) == Plus(At(usage, name, day), Shares(entries, w, name, day))
    decreases |entries|
  {
    if entries != [] {
      var e := entries[0];
      AddEntriesAt(AddEntry(usage, w, e), w, entries[1..], name, day);
      if Counts(e, w) {
        AddItemsAt(usage, e.day.value, e.items, name, day);
      }
      PlusAssociates(At(usage, name, day), Share(e, w, name, day), Shares(entries[1..], w, name, day));
    }
  }

  /** A model is listed only with days. */
  ghost predicate NoEmptyRows(usage: Usage) {
    forall name :: name in usage ==> exists day :: day in usage[name]
  }

  lemma {:induction false} AddItemsRows(usage: Usage, day: int, items: seq<Item>)
    requires NoEmptyRows(usage)
    ensures NoEmptyRows(AddItems(usage, day, items))
    decreases |items|
  {
    if items != [] {
      var usage' := AddItem(usage, day, items[0]);
      if Names(items[0]) {
        assert day in usage'[items[0].name];
      }
      AddItemsRows(usage', day, items[1..]);
    }
  }

  lemma {:induction false} AddEntriesRows(usage: Usage, w: Window, entries: seq<Entry>)
    requires NoEmptyRows(usage)
    ensures NoEmptyRows(AddEntries(usage, w, entries))
    decreases |entries|
  {
    if entries != [] {
      if Counts(entries[0], w) {
        AddItemsRows(usage, entries[0].day.value, entries[0].items);
      }
      AddEntriesRows(AddEntry(usage, w, entries[0]), w, entries[1..]);
    }
  }

  /** Usage without empty rows is determined by what it keeps of every model and day. */
  lemma SameEverywhere(a: Usage, b: Usage)
    requires NoEmptyRows(a) && NoEmptyRows(b) && forall name, day :: At(a, name, day) == At(b, name, day)
    ensures a == b
  {
    forall name: string
      ensures name in a <==> name in b
      ensures name in a ==> a[name] == b[name]
    {
      assert forall day :: At(a, name, day) == At(b, name, day);
      if name in a {
        SameRows(a, b, name);
      } else if name in b {
        SameRows(b, a, name);
      }
    }
  }

  lemma SameRows(a: Usage, b: Usage, name: string)
    requires name in a && (exists day :: day in a[name]) && forall day :: At(a, name, day) == At(b, name, day)
    ensures name in b && a[name] == b[name]
  {
    var first :| first in a[name];
    assert At(a, name, first) == At(b, name, first);
    forall day: int
      ensures day in a[name] <==> day in b[name]
      ensures day in a[name] ==> a[name][day] == b[name][day]
    {
      assert At(a, name, day) == At(b, name, day);
    }
  }

  lemma {:induction false} SharesConcatenate(a: seq<Entry>, b: seq<Entry>, w: Window, name: string, day: int)
    ensures Shares(a + b, w, name, day) == Plus(Shares(a, w, name, day), Shares(b, w, name, day))
  {
    if a == [] {
      assert a + b == b;
    } else {
      SharesConcatenate(a[1..], b, w, name, day);
      assert (a + b)[1..] == a[1..] + b;
      PlusAssociates(Share(a[0], w, name, day), Shares(a[1..], w, name, day), Shares(b, w, name, day));
    }
  }

  lemma TakeOut(a: seq<Entry>, b: seq<Entry>, i: nat)
    requires a != [] && multiset(a) == multiset(b) && i < |b| && b[i] == a[0]
    ensures multiset(a[1..]) == multiset(b[..i] + b[i + 1..])
  {
    assert a == [a[0]] + a[1..];
    assert b == b[..i] + [b[i]] + b[i + 1..];
    assert multiset(b[..i] + b[i + 1..]) == multiset(b[..i]) + multiset(b[i + 1..]);
    assert multiset(a[1..]) == multiset(a) - multiset{a[0]};
  }

  lemma {:induction false} SharesPermute(a: seq<Entry>, b: seq<Entry>, w: Window, name: string, day: int)
    requires multiset(a) == multiset(b)
    ensures Shares(a, w, name, day) == Shares(b, w, name, day)
  {
    if a == [] {
      assert |multiset(b)| == |b|;
    } else {
      assert a[0] in multiset(b);
      var i :| 0 <= i < |b| && b[i] == a[0];
      var before, after := b[..i], b[i + 1..];
      TakeOut(a, b, i);
      assert b == before + ([b[i]] + after);
      SharesPermute(a[1..], before + after, w, name, day);
      SharesConcatenate(before, after, w, name, day);
      SharesConcatenate(before, [b[i]] + after, w, name, day);
      assert ([b[i]] + after)[1..] == after;
      PlusAssociates(Shares(before, w, name, day), Share(b[i], w, name, day), Shares(after, w, name, day));
      PlusAssociates(Share(b[i], w, name, day), Shares(before, w, name, day), Shares(after, w, name, day));
    }
  }

  /** What is kept of a model and a day is the sum of what the entries say about them, days
      outside the window left out. */
  lemma UsageIsTheSum(entries: seq<Entry>, w: Window, name: string, day: int)
    ensures At(AddEntries(map[], w, entries), name, day) == Shares(entries, w, name, day)
  {
    AddEntriesAt(map[], w, entries, name, day);
  }

  // ---------------------------------------------------------------- number by number

  datatype Field = Prompt | Completion | Spend | Requests | Failed

  function Get(m: Metrics, field: Field): real {
    match field
    case Prompt => m.prompt as real
    case Completion => m.completion as real
    case Spend => m.spend
    case Requests => m.requests as real
    case Failed => m.failed as real
  }

  function Total(numbers: seq<real>): real {
    if numbers == [] then 0.0 else numbers[0] + Total(numbers[1..])
  }

  /** An entry of a day in the window that names the model in a group that can be read. */
  predicate Tells(e: Entry, item: Item, w: Window, name: string, day: int) {
    e.day == Some(day) && w.start <= day && day <= w.end && item.name == name && name != "" && item.isDict
  }

  function ItemNumbers(e: Entry, items: seq<Item>, w: Window, name: string, day: int, field: Field): seq<real> {
    seq(|items|, j requires 0 <= j < |items| =>
      if Tells(e, items[j], w, name, day) then Get(items[j].metrics, field) else 0.0)
  }

  /** What every entry tells of one number of a model and a day. */
  function Numbers(entries: seq<Entry>, w: Window, name: string, day: int, field: Field): seq<real> {
    seq(|entries|, i requires 0 <= i < |entries| =>
      Total(ItemNumbers(entries[i], entries[i].items, w, name, day, field)))
  }

  function GetOrZero(m: Option<Metrics>, field: Field): real {
    if m.None? then 0.0 else Get(m.value, field)
  }

  lemma PlusByField(a: Option<Metrics>, b: Option<Metrics>, field: Field)
    ensures GetOrZero(Plus(a, b), field) == GetOrZero(a, field) + GetOrZero(b, field)
  {
  }

  lemma {:induction false} ItemsByField(e: Entry, items: seq<Item>, w: Window, name: string, day: int, field: Field)
    requires Counts(e, w) && e.day.value == day
    ensures GetOrZero(ItemsShare(items, name), field) == Total(ItemNumbers(e, items, w, name, day, field))
    ensures ItemsShare(items, name).Some? <==> exists item :: item in items && Tells(e, item, w, name, day)
    decreases |items|
  {
    hide Get;
    if items != [] {
      ItemsByField(e, items[1..], w, name, day, field);
      PlusByField(ItemShare(items[0], name), ItemsShare(items[1..], name), field);
      var numbers := ItemNumbers(e, items, w, name, day, field);
      assert numbers[1..] == ItemNumbers(e, items[1..], w, name, day, field);
      assert items == [items[0]] + items[1..];
    }
  }

  lemma {:induction false} NoneTell(e: Entry, items: seq<Item>, w: Window, name: string, day: int, field: Field)
    requires !(Counts(e, w) && e.day.value == day)
    ensures Total(ItemNumbers(e, items, w, name, day, field)) == 0.0
    decreases |items|
  {
    if items != [] {
      NoneTell(e, items[1..], w, name, day, field);
      assert ItemNumbers(e, items, w, name, day, field)[1..] == ItemNumbers(e, items[1..], w, name, day, field);
    }
  }

  lemma {:induction false} SharesByField(entries: seq<Entry>, w: Window, name: string, day: int, field: Field)
    ensures GetOrZero(Shares(entries, w, name, day), field) == Total(Numbers(entries, w, name, day, field))
    ensures Shares(entries, w, name, day).Some? <==>
              exists e, item :: e in entries && item in e.items && Tells(e, item, w, name, day)
    decreases |entries|
  {
    hide Get, ItemNumbers, ItemsShare;
    if entries != [] {
      var e := entries[0];
      SharesByField(entries[1..], w, name, day, field);
      PlusByField(Share(e, w, name, day), Shares(entries[1..], w, name, day), field);
      if Counts(e, w) && e.day.value == day {
        ItemsByField(e, e.items, w, name, day, field);
      } else {
        NoneTell(e, e.items, w, name, day, field);
      }
      assert Numbers(entries, w, name, day, field)[1..] == Numbers(entries[1..], w, name, day, field);
      assert entries == [e] + entries[1..];
    }
  }

  /** Each number that is kept of a model and a day is the sum of what the entries of that day tell
      of it, and something is kept exactly if one of them does and the day is in the window. */
  lemma UsageByField(entries: seq<Entry>, w: Window, name: string, day: int, field: Field)
    ensures var kept := At(AddEntries(map[], w, entries), name, day);
            && (kept.Some? <==> exists e, item :: e in entries && item in e.items && Tells(e, item, w, name, day))
            && (kept.Some? ==> Get(kept.value, field) == Total(Numbers(entries, w, name, day, field)))
  {
    hide AddEntries, Shares, Numbers;
    UsageIsTheSum(entries, w, name, day);
    SharesByField(entries, w, name, day, field);
  }

  lemma {:induction false} SumByField(values: seq<Metrics>, field: Field)
    ensures Get(Sum(values), field) == Total(seq(|values|, i requires 0 <= i < |values| => Get(values[i], field)))
  {
    var numbers := seq(|values|, i requires 0 <= i < |values| => Get(values[i], field));
    if |values| > 0 {
      SumByField(values[1..], field);
      assert numbers[1..] == seq(|values| - 1, i requires 0 <= i < |values| - 1 => Get(values[1..][i], field));
    }
  }

  /** Neither the order of the entries nor how they are cut into pages matters. */
  lemma UsageIsPageIndependent(a: seq<Entry>, b: seq<Entry>, w: Window)
    requires multiset(a) == multiset(b)
    ensures AddEntries(map[], w, a) == AddEntries(map[], w, b)
  {
    hide AddEntries, Shares;
    AddEntriesRows(map[], w, a);
    AddEntriesRows(map[], w, b);
    forall name: string, day: int
      ensures At(AddEntries(map[], w, a), name, day) == At(AddEntries(map[], w, b), name, day)
    {
      UsageIsTheSum(a, w, name, day);
      UsageIsTheSum(b, w, name, day);
      SharesPermute(a, b, w, name, day);
    }
    SameEverywhere(AddEntries(map[], w, a), AddEntries(map[], w, b));
  }

  /** Two answers together are the sum of the two. */
  lemma UsageIsAdditive(a: seq<Entry>, b: seq<Entry>, w: Window, name: string, day: int)
    ensures At(AddEntries(map[], w, a + b), name, day)
            == Plus(At(AddEntries(map[], w, a), name, day), At(AddEntries(map[], w, b), name, day))
  {
    UsageIsTheSum(a + b, w, name, day);
    UsageIsTheSum(a, w, name, day);
    UsageIsTheSum(b, w, name, day);
    SharesConcatenate(a, b, w, name, day);
  }

  // ---------------------------------------------------------------- the report

  /** `Window.dates`. */
  function Dates(w: Window): seq<int> {
    if w.end < w.start then [] else seq(w.end - w.start + 1, i => w.start + i)
  }

  function Sum(values: seq<Metrics>): Metrics {
    if |values| == 0 then ZERO else Add(values[0], Sum(values[1..]))
  }

  /** `sum(days.values(), ZERO)`: in whatever order the days come. */
  ghost function SumOf(days: Days): Metrics {
    SumOver(days, days.Keys)
  }

  ghost function SumOver(days: Days, keys: set<int>): Metrics {
    if !exists day :: day in keys then ZERO
    else
      var day :| day in keys;
      Add(OrZero(days, day), SumOver(days, keys - {day}))
  }

  function OrZero(days: Days, day: int): Metrics {
    if day in days then days[day] else ZERO
  }

  function RowOf(usage: Usage, name: string): Days {
    if name in usage then usage[name] else map[]
  }

  datatype Model = Model(name: string, daily: seq<Metrics>, totals: Metrics)

  datatype Report = Report(days: seq<int>, models: seq<Model>, totals: Metrics, dailyTotals: seq<Metrics>)

  ghost function ModelOf(w: Window, usage: Usage, name: string): Model {
    var row, days := RowOf(usage, name), Dates(w);
    Model(name, seq(|days|, i requires 0 <= i < |days| => OrZero(row, days[i])), SumOf(row))
  }

  ghost function TotalsOf(models: seq<Model>): seq<Metrics> {
    seq(|models|, i requires 0 <= i < |models| => models[i].totals)
  }

  ghost function ColumnOf(models: seq<Model>, day: nat): seq<Metrics>
    requires forall i :: 0 <= i < |models| ==> day < |models[i].daily|
  {
    seq(|models|, i requires 0 <= i < |models| => models[i].daily[day])
  }

  /** `build_report`, with the models in the order of `names`. */
  ghost function BuildReport(w: Window, usage: Usage, names: seq<string>): Report {
    var models := seq(|names|, i requires 0 <= i < |names| => ModelOf(w, usage, names[i]));
    Report(Dates(w), models, Sum(TotalsOf(models)),
           seq(|Dates(w)|, day requires 0 <= day < |Dates(w)| => Sum(ColumnOf(models, day))))
  }

  lemma AddAssociates(a: Metrics, b: Metrics, c: Metrics)
    ensures Add(Add(a, b), c) == Add(a, Add(b, c)) && Add(a, b) == Add(b, a) && Add(a, ZERO) == a
  {
  }

  lemma {:induction false} SumOverTakes(days: Days, keys: set<int>, day: int)
    requires day in keys
    ensures SumOver(days, keys) == Add(OrZero(days, day), SumOver(days, keys - {day}))
    decreases |keys|
  {
    hide Add, OrZero;
    var first :| first in keys && SumOver(days, keys) == Add(OrZero(days, first), SumOver(days, keys - {first}));
    if first != day {
      SumOverTakes(days, keys - {first}, day);
      SumOverTakes(days, keys - {day}, first);
      var rest := SumOver(days, keys - {first} - {day});
      assert keys - {first} - {day} == keys - {day} - {first};
      AddSwaps(OrZero(days, first), OrZero(days, day), rest);
    }
  }

  lemma AddSwaps(a: Metrics, b: Metrics, c: Metrics)
    ensures Add(a, Add(b, c)) == Add(b, Add(a, c))
  {
  }

  /** The days from `from` on, added up in the order of the calendar. */
  function RowSum(days: Days, from: int, end: int): Metrics
    decreases end + 1 - from
  {
    if from > end then ZERO else Add(OrZero(days, from), RowSum(days, from + 1, end))
  }

  lemma {:induction false} RowSumIsSumOver(days: Days, keys: set<int>, from: int, end: int)
    requires forall day :: day in keys <==> day in days && from <= day <= end
    ensures RowSum(days, from, end) == SumOver(days, keys)
    decreases end + 1 - from
  {
    hide Add;
    if from <= end {
      if from in days {
        SumOverTakes(days, keys, from);
        RowSumIsSumOver(days, keys - {from}, from + 1, end);
      } else {
        RowSumIsSumOver(days, keys, from + 1, end);
        AddAssociates(RowSum(days, from + 1, end), ZERO, ZERO);
      }
    } else {
      assert forall day :: day !in keys;
    }
  }

  function Row(days: Days, from: int, n: nat): seq<Metrics> {
    seq(n, i requires 0 <= i => OrZero(days, from + i))
  }

  lemma {:induction false} RowSumIsSum(days: Days, from: int, end: int)
    requires from <= end + 1
    ensures RowSum(days, from, end) == Sum(Row(days, from, end + 1 - from))
    decreases end + 1 - from
  {
    hide Add, OrZero;
    if from <= end {
      RowSumIsSum(days, from + 1, end);
      var row, rest := Row(days, from, end + 1 - from), Row(days, from + 1, end - from);
      assert row[0] == OrZero(days, from);
      assert row[1..] == rest;
    }
  }

  /** Usage that was read for a window has no other days. */
  ghost predicate Within(usage: Usage, w: Window) {
    forall name, day :: name in usage && day in usage[name] ==> w.start <= day <= w.end
  }

  lemma {:induction false} NothingOutside(entries: seq<Entry>, w: Window, name: string, day: int)
    requires day < w.start || w.end < day
    ensures Shares(entries, w, name, day).None?
  {
    if entries != [] {
      NothingOutside(entries[1..], w, name, day);
    }
  }

  lemma ParsedIsWithin(entries: seq<Entry>, w: Window)
    ensures Within(AddEntries(map[], w, entries), w)
  {
    var usage := AddEntries(map[], w, entries);
    forall name, day | name in usage && day in usage[name]
      ensures w.start <= day <= w.end
    {
      UsageIsTheSum(entries, w, name, day);
      assert At(usage, name, day).Some?;
      if day < w.start || w.end < day {
        NothingOutside(entries, w, name, day);
      }
    }
  }

  /** A model's total is the sum of its row. */
  lemma ModelTotalIsRowTotal(w: Window, usage: Usage, name: string)
    requires Within(usage, w) && w.start <= w.end + 1
    ensures ModelOf(w, usage, name).totals == Sum(ModelOf(w, usage, name).daily)
  {
    hide Sum, RowSum, SumOver, OrZero;
    var row, days := RowOf(usage, name), Dates(w);
    RowSumIsSumOver(row, row.Keys, w.start, w.end);
    RowSumIsSum(row, w.start, w.end);
    assert ModelOf(w, usage, name).daily == Row(row, w.start, w.end + 1 - w.start);
  }

  // ---------------------------------------------------------------- rows and columns

  ghost function RowTotals(rows: seq<seq<Metrics>>): seq<Metrics> {
    seq(|rows|, i requires 0 <= i < |rows| => Sum(rows[i]))
  }

  ghost predicate HasWidth(rows: seq<seq<Metrics>>, n: nat) {
    forall i :: 0 <= i < |rows| ==> |rows[i]| == n
  }

  ghost function Column(rows: seq<seq<Metrics>>, k: nat, n: nat): seq<Metrics>
    requires HasWidth(rows, n) && k < n
  {
    seq(|rows|, i requires 0 <= i < |rows| => rows[i][k])
  }

  ghost function ColumnTotals(rows: seq<seq<Metrics>>, n: nat): seq<Metrics>
    requires HasWidth(rows, n)
  {
    seq(n, k requires 0 <= k < n => Sum(Column(rows, k, n)))
  }

  lemma AddRegroups(a: Metrics, b: Metrics, c: Metrics, d: Metrics)
    ensures Add(Add(a, b), Add(c, d)) == Add(Add(a, c), Add(b, d))
  {
  }

  lemma {:induction false} SumsAdd(a: seq<Metrics>, b: seq<Metrics>, c: seq<Metrics>)
    requires |a| == |b| == |c| && forall i :: 0 <= i < |a| ==> c[i] == Add(a[i], b[i])
    ensures Sum(c) == Add(Sum(a), Sum(b))
  {
    if |a| != 0 {
      hide Add;
      SumsAdd(a[1..], b[1..], c[1..]);
      assert c[0] == Add(a[0], b[0]);
      AddRegroups(a[0], b[0], Sum(a[1..]), Sum(b[1..]));
    } else {
      AddAssociates(ZERO, ZERO, ZERO);
    }
  }

  lemma {:induction false} SumOfZeros(zeros: seq<Metrics>)
    requires forall i :: 0 <= i < |zeros| ==> zeros[i] == ZERO
    ensures Sum(zeros) == ZERO
  {
    if |zeros| != 0 {
      hide Add;
      SumOfZeros(zeros[1..]);
      assert zeros[0] == ZERO;
      AddAssociates(ZERO, ZERO, ZERO);
    }
  }

  lemma {:induction false} RowsAndColumns(rows: seq<seq<Metrics>>, n: nat)
    requires HasWidth(rows, n)
    ensures Sum(RowTotals(rows)) == Sum(ColumnTotals(rows, n))
  {
    hide Add;
    if |rows| == 0 {
      SumOfZeros(ColumnTotals(rows, n));
    } else {
      var rest := rows[1..];
      RowsAndColumns(rest, n);
      assert RowTotals(rows)[0] == Sum(rows[0]) && RowTotals(rows)[1..] == RowTotals(rest);
      forall k | 0 <= k < n
        ensures ColumnTotals(rows, n)[k] == Add(rows[0][k], ColumnTotals(rest, n)[k])
      {
        assert Column(rows, k, n)[0] == rows[0][k] && Column(rows, k, n)[1..] == Column(rest, k, n);
      }
      SumsAdd(rows[0], ColumnTotals(rest, n), ColumnTotals(rows, n));
    }
  }

  /** Nothing is lost between the views of the report: each model's total is the sum of its row,
      and the grand total is both the sum over the models and the sum over the days. */
  lemma ReportConserves(w: Window, entries: seq<Entry>, names: seq<string>)
    requires w.start <= w.end + 1
    ensures var r := BuildReport(w, AddEntries(map[], w, entries), names);
            && (forall i :: 0 <= i < |r.models| ==> r.models[i].totals == Sum(r.models[i].daily))
            && r.totals == Sum(TotalsOf(r.models)) && r.totals == Sum(r.dailyTotals)
  {
    hide AddEntries, SumOf;
    var usage := AddEntries(map[], w, entries);
    var r := BuildReport(w, usage, names);
    ParsedIsWithin(entries, w);
    forall i | 0 <= i < |names|
      ensures r.models[i].totals == Sum(r.models[i].daily)
    {
      ModelTotalIsRowTotal(w, usage, names[i]);
    }
    var rows, n := seq(|names|, i requires 0 <= i < |names| => r.models[i].daily), |Dates(w)|;
    RowsAndColumns(rows, n);
    assert RowTotals(rows) == TotalsOf(r.models);
    forall k | 0 <= k < n
      ensures ColumnTotals(rows, n)[k] == r.dailyTotals[k]
    {
      assert Column(rows, k, n) == ColumnOf(r.models, k);
    }
    assert ColumnTotals(rows, n) == r.dailyTotals;
  }

  /** What the report shows: every day of the window in order, and of every model what is kept of
      each day, or nothing. */
  lemma ReportShows(w: Window, usage: Usage, names: seq<string>, i: nat, k: nat)
    requires w.start <= w.end + 1 && i < |names| && k < w.end + 1 - w.start
    ensures var r := BuildReport(w, usage, names);
            && |r.days| == w.end + 1 - w.start && r.days[k] == w.start + k
            && |r.models| == |names| && r.models[i].name == names[i] && |r.models[i].daily| == |r.days|
            && r.models[i].daily[k] == match At(usage, names[i], w.start + k) case Some(m) => m case None => ZERO
  {
    hide SumOf, Sum;
  }
}
