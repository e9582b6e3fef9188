/** The health of the stack's modules and the services they should have (`services.py`).

    Docker reports containers, which are grouped into modules; the inventory says which
    services there should be. A module's health is the worst of its containers, and a section's
    the worst of its modules, where a container that has run to its end does not count beside
    one that serves. Nothing at all counts as unknown.

    Merging the inventory in gives every declared service that Docker did not report a
    placeholder in its module, sorts the containers of each module, notes the profiles that
    bring it up, and lists the modules worst first. Services are told apart by name within one
    project, and modules too. */
module Services {
  import opened Sorting
  import opened Splitting
  import opened Text
  import opened Wrappers

  datatype Health = Missing | Stopped | Unhealthy | Starting | Unknown | Completed | Healthy

  datatype Container = Container(name: string, service: string, role: string, state: string, health: Health)

  datatype Module = Module(name: string, containers: seq<Container>, profiles: set<string>, addon: string, node: string)

  datatype Expected = Expected(service: string, role: string, home: string, profiles: set<string>)

  const MISSING_STATE := "missing"

  /** Lower is worse. */
  function Severity(h: Health): nat {
    match h
    case Missing => 0
    case Stopped => 1
    case Unhealthy => 2
    case Starting => 3
    case Unknown => 4
    case Completed => 5
    case Healthy => 6
  }

  // ---------------------------------------------------------------- the worst of many

  function Serving(values: seq<Health>): (serving: seq<Health>)
    ensures forall v :: v in serving <==> v in values && v != Completed
  {
    if values == [] then []
    else Serving(Init(values)) + if Last(values) == Completed then [] else [Last(values)]
  }

  function Least(values: seq<Health>): (least: Health)
    requires values != []
    ensures least in values && forall v :: v in values ==> Severity(least) <= Severity(v)
  {
    if |values| == 1 then values[0]
    else
      var before := Least(Init(values));
      if Severity(Last(values)) < Severity(before) then Last(values) else before
  }

  /** `worst`. */
  function Worst(values: seq<Health>): Health {
    if values == [] then Unknown
    else if Serving(values) == [] then Completed
    else Least(Serving(values))
  }

  function HealthOf(m: Module): Health {
    Worst(ContainerHealth(m.containers))
  }

  function ContainerHealth(containers: seq<Container>): seq<Health> {
    seq(|containers|, i requires 0 <= i < |containers| => containers[i].health)
  }

  function ModuleHealth(modules: seq<Module>): seq<Health> {
    seq(|modules|, i requires 0 <= i < |modules| => HealthOf(modules[i]))
  }

  /** `overall_health`. */
  function OverallHealth(modules: seq<Module>): Health {
    Worst(ModuleHealth(modules))
  }

  function AllContainers(modules: seq<Module>): seq<Container> {
    if modules == [] then [] else AllContainers(Init(modules)) + Last(modules).containers
  }

  /** `w` is the worst of the values: none is worse, but for those that have completed. */
  ghost predicate IsWorst(w: Health, values: set<Health>) {
    if values <= {Completed} then
      w == if values == {} then Unknown else Completed
    else
      && w in values && w != Completed
      && forall v :: v in values && v != Completed ==> Severity(w) <= Severity(v)
  }

  function AsSet(values: seq<Health>): (s: set<Health>)
    ensures forall v :: v in s <==> v in values
  {
    set v | v in values
  }

  lemma WorstIsWorst(values: seq<Health>, w: Health)
    ensures IsWorst(w, AsSet(values)) <==> w == Worst(values)
  {
    hide AsSet, Serving;
    var s, serving := AsSet(values), Serving(values);
    if values == [] {
      assert s == {};
    } else if serving == [] {
      NoneServes(values);
    } else {
      assert serving[0] in serving && serving[0] in s;
      assert forall v :: v in s && v != Completed ==> v in serving;
    }
  }

  lemma NoneServes(values: seq<Health>)
    requires values != [] && Serving(values) == []
    ensures AsSet(values) == {Completed}
  {
    assert values[0] in values;
    assert forall v :: v in values && v != Completed ==> v in Serving(values);
  }

  lemma {:induction false} ContainersOfModules(modules: seq<Module>, c: Container)
    ensures c in AllContainers(modules) <==> exists i :: 0 <= i < |modules| && c in modules[i].containers
  {
    if modules != [] {
      ContainersOfModules(Init(modules), c);
      assert modules[|modules| - 1] == Last(modules);
      assert forall i :: 0 <= i < |modules| - 1 ==> modules[i] == Init(modules)[i];
    }
  }

  /** The healths of a module's containers, of all containers, and of the modules. */
  function Inside(m: Module): set<Health> {
    AsSet(ContainerHealth(m.containers))
  }

  function Everywhere(modules: seq<Module>): set<Health> {
    AsSet(ContainerHealth(AllContainers(modules)))
  }

  function Shown(modules: seq<Module>): set<Health> {
    AsSet(ModuleHealth(modules))
  }

  lemma InsideIsHealth(m: Module, h: Health)
    ensures h in Inside(m) <==> exists c :: c in m.containers && c.health == h
  {
    if h in Inside(m) {
      var i :| 0 <= i < |m.containers| && ContainerHealth(m.containers)[i] == h;
      assert m.containers[i] in m.containers;
    }
    if c :| c in m.containers && c.health == h {
      var i :| 0 <= i < |m.containers| && m.containers[i] == c;
      assert ContainerHealth(m.containers)[i] == h;
    }
  }

  lemma EverywhereIsInside(modules: seq<Module>, h: Health)
    ensures h in Everywhere(modules) <==> exists i :: 0 <= i < |modules| && h in Inside(modules[i])
  {
    hide AsSet, ContainerHealth;
    var all := Module("", AllContainers(modules), {}, "", "");
    assert Everywhere(modules) == Inside(all);
    InsideIsHealth(all, h);
    if h in Everywhere(modules) {
      var c :| c in all.containers && c.health == h;
      ContainersOfModules(modules, c);
      var i :| 0 <= i < |modules| && c in modules[i].containers;
      InsideIsHealth(modules[i], h);
    }
    if i :| 0 <= i < |modules| && h in Inside(modules[i]) {
      InsideIsHealth(modules[i], h);
      var c :| c in modules[i].containers && c.health == h;
      ContainersOfModules(modules, c);
    }
  }


  /** Empty modules show as unknown, which may be worse than what all containers are. */
  ghost predicate EmptyMatters(modules: seq<Module>) {
    && (exists i :: 0 <= i < |modules| && modules[i].containers == [])
    && (exists c :: c in AllContainers(modules))
    && (forall c :: c in AllContainers(modules) ==> c.health == Completed || c.health == Healthy)
  }

  function Pick(s: set<Health>): Health {
    if Missing in s then Missing
    else if Stopped in s then Stopped
    else if Unhealthy in s then Unhealthy
    else if Starting in s then Starting
    else if Unknown in s || s == {} then Unknown
    else if Healthy in s then Healthy
    else Completed
  }

  lemma PickIsWorst(s: set<Health>, h: Health)
    ensures IsWorst(h, s) <==> h == Pick(s)
  {
    if s != {} {
      var v :| v in s;
      if !(s <= {Completed}) {
        var u :| u in s && u != Completed;
        assert Pick(s) in s && Pick(s) != Completed;
      }
    }
  }

  lemma WorstIsPick(values: seq<Health>)
    ensures Worst(values) == Pick(AsSet(values))
  {
    hide IsWorst, Worst, Pick;
    WorstIsWorst(values, Worst(values));
    PickIsWorst(AsSet(values), Worst(values));
  }

  lemma ShownIsPicked(modules: seq<Module>, h: Health)
    ensures h in Shown(modules) <==> exists i :: 0 <= i < |modules| && h == Pick(Inside(modules[i]))
  {
    hide Pick, Worst, ContainerHealth, AsSet;
    forall i | 0 <= i < |modules|
      ensures Pick(Inside(modules[i])) == ModuleHealth(modules)[i]
    {
      WorstIsPick(ContainerHealth(modules[i].containers));
    }
    if h in Shown(modules) {
      var i :| 0 <= i < |modules| && ModuleHealth(modules)[i] == h;
    }
    if i :| 0 <= i < |modules| && h == Pick(Inside(modules[i])) {
      assert ModuleHealth(modules)[i] == h;
    }
  }

  /** Some of the sets is empty, and together they have nothing but completed and healthy. */
  ghost predicate GapMatters(parts: seq<set<Health>>, all: set<Health>) {
    {} in parts && all != {} && all <= {Completed, Healthy}
  }

  ghost predicate IsUnion(all: set<Health>, parts: seq<set<Health>>) {
    forall h :: h in all <==> exists i :: 0 <= i < |parts| && h in parts[i]
  }

  ghost predicate ArePicks(shown: set<Health>, parts: seq<set<Health>>) {
    forall h :: h in shown <==> exists i :: 0 <= i < |parts| && h == Pick(parts[i])
  }

  lemma WorstOfWorst(parts: seq<set<Health>>, all: set<Health>, shown: set<Health>)
    requires IsUnion(all, parts) && ArePicks(shown, parts)
    ensures Pick(shown) == Pick(all) <==> !GapMatters(parts, all)
  {
    hide Pick, GapMatters, IsUnion, ArePicks;
    ShownIfThere(parts, all, shown, Missing);
    if Missing in all {
      SamePick(parts, all, shown, Missing);
    } else {
      ShownIfThere(parts, all, shown, Stopped);
      if Stopped in all {
        SamePick(parts, all, shown, Stopped);
      } else {
        ShownIfThere(parts, all, shown, Unhealthy);
        if Unhealthy in all {
          SamePick(parts, all, shown, Unhealthy);
        } else {
          ShownIfThere(parts, all, shown, Starting);
          if Starting in all {
            SamePick(parts, all, shown, Starting);
          } else {
            ShownIfThere(parts, all, shown, Unknown);
            if Unknown in all {
              SamePick(parts, all, shown, Unknown);
            } else {
              MildParts(parts, all, shown);
            }
          }
        }
      }
    }
  }

  lemma SamePick(parts: seq<set<Health>>, all: set<Health>, shown: set<Health>, h: Health)
    requires Severity(h) <= Severity(Unknown) && h in all && h in shown
    requires NothingWorse(all, h) && NothingWorse(shown, h)
    ensures Pick(shown) == Pick(all) && !GapMatters(parts, all)
  {
  }

  ghost predicate NothingWorse(s: set<Health>, h: Health) {
    forall g :: Severity(g) < Severity(h) ==> g !in s
  }

  /** With nothing worse around, a health is shown if it is there; unknown, also for a gap. */
  lemma ShownIfThere(parts: seq<set<Health>>, all: set<Health>, shown: set<Health>, h: Health)
    requires IsUnion(all, parts) && ArePicks(shown, parts)
    requires Severity(h) <= Severity(Unknown) && NothingWorse(all, h)
    ensures h in shown <==> h in all || (h == Unknown && {} in parts)
  {
    forall i | 0 <= i < |parts|
      ensures Pick(parts[i]) == h <==> h in parts[i] || (h == Unknown && parts[i] == {})
    {
      assert parts[i] <= all;
      assert NothingWorse(parts[i], h);
    }
    hide Pick;
    if h in shown {
      var i :| 0 <= i < |parts| && h == Pick(parts[i]);
    }
    if h in all {
      var i :| 0 <= i < |parts| && h in parts[i];
      assert Pick(parts[i]) == h;
    }
    if h == Unknown && {} in parts {
      var i :| 0 <= i < |parts| && parts[i] == {};
      assert Pick(parts[i]) == h;
    }
  }

  lemma MildParts(parts: seq<set<Health>>, all: set<Health>, shown: set<Health>)
    requires IsUnion(all, parts) && ArePicks(shown, parts)
    requires NothingWorse(all, Completed)
    requires Unknown in shown <==> {} in parts
    ensures Pick(shown) == Pick(all) <==> !GapMatters(parts, all)
  {
    assert all <= {Completed, Healthy} by {
      assert forall h: Health :: Severity(h) >= Severity(Completed) ==> h == Completed || h == Healthy;
    }
    forall i | 0 <= i < |parts|
      ensures Pick(parts[i]) == if Healthy in parts[i] then Healthy else if parts[i] == {} then Unknown else Completed
      ensures Pick(parts[i]) in shown
    {
      assert parts[i] <= all;
    }
    assert shown <= {Completed, Healthy, Unknown};
    MildShown(parts, all, shown);
    hide IsUnion, ArePicks, NothingWorse;
  }

  lemma MildShown(parts: seq<set<Health>>, all: set<Health>, shown: set<Health>)
    requires IsUnion(all, parts) && ArePicks(shown, parts) && all <= {Completed, Healthy}
    requires forall i :: 0 <= i < |parts| ==>
               Pick(parts[i]) == if Healthy in parts[i] then Healthy else if parts[i] == {} then Unknown else Completed
    ensures Healthy in shown <==> Healthy in all
    ensures shown == {} <==> parts == []
  {
    hide Pick;
    if Healthy in all {
      var i :| 0 <= i < |parts| && Healthy in parts[i];
      assert Pick(parts[i]) == Healthy;
    }
    if parts != [] {
      assert Pick(parts[0]) in shown;
    }
  }

  /** The pill of a section is the worst of its containers, unless a module is empty, there is a
      container, and all of them have completed or are healthy. */
  lemma OverallIsWorst(modules: seq<Module>)
    ensures OverallHealth(modules) == Worst(ContainerHealth(AllContainers(modules))) <==> !EmptyMatters(modules)
  {
    hide Worst, AllContainers, IsWorst, Pick, AsSet, ContainerHealth;
    WorstIsPick(ModuleHealth(modules));
    WorstIsPick(ContainerHealth(AllContainers(modules)));
    var parts := seq(|modules|, i requires 0 <= i < |modules| => Inside(modules[i]));
    forall h: Health
      ensures h in Everywhere(modules) <==> exists i :: 0 <= i < |parts| && h in parts[i]
      ensures h in Shown(modules) <==> exists i :: 0 <= i < |parts| && h == Pick(parts[i])
    {
      EverywhereIsInside(modules, h);
      ShownIsPicked(modules, h);
      assert forall i :: 0 <= i < |parts| ==> parts[i] == Inside(modules[i]);
    }
    WorstOfWorst(parts, Everywhere(modules), Shown(modules));
    GapIsEmptyModule(modules, parts);
  }

  /** One module with a healthy container and one with none: unknown, though all is healthy. */
  lemma EmptyModuleHidesHealth()
    ensures var up := Container("a", "a", "", "running", Healthy);
            var modules := [Module("a", [up], {}, "", ""), Module("b", [], {}, "", "")];
            OverallHealth(modules) == Unknown && Worst(ContainerHealth(AllContainers(modules))) == Healthy
  {
    var up := Container("a", "a", "", "running", Healthy);
    var a, b := Module("a", [up], {}, "", ""), Module("b", [], {}, "", "");
    assert AllContainers([a]) == [up] by {
      assert Init([a]) == [];
    }
    assert Init([a, b]) == [a] && AllContainers([a, b]) == [up];
    assert ContainerHealth([up]) == [Healthy] && ContainerHealth([]) == [];
    assert HealthOf(a) == Healthy && HealthOf(b) == Unknown;
    assert ModuleHealth([a, b]) == [Healthy, Unknown];
    WorstIsPick([Healthy, Unknown]);
    assert Unknown in [Healthy, Unknown];
  }

  lemma GapIsEmptyModule(modules: seq<Module>, parts: seq<set<Health>>)
    requires |parts| == |modules| && forall i :: 0 <= i < |modules| ==> parts[i] == Inside(modules[i])
    ensures GapMatters(parts, Everywhere(modules)) <==> EmptyMatters(modules)
  {
    hide AllContainers;
    forall i | 0 <= i < |modules|
      ensures parts[i] == {} <==> modules[i].containers == []
    {
      if modules[i].containers != [] {
        var c := modules[i].containers[0];
        InsideIsHealth(modules[i], c.health);
      } else {
        assert ContainerHealth([]) == [];
      }
    }
    var all := Module("", AllContainers(modules), {}, "", "");
    assert Everywhere(modules) == Inside(all);
    forall h: Health
      ensures h in Everywhere(modules) <==> exists c :: c in all.containers && c.health == h
    {
      InsideIsHealth(all, h);
    }
    assert (exists c :: c in all.containers) ==> Everywhere(modules) != {} by {
      if c :| c in all.containers {
        assert c.health in Everywhere(modules);
      }
    }
    if Everywhere(modules) <= {Completed, Healthy} {
      forall c | c in all.containers
        ensures c.health == Completed || c.health == Healthy
      {
        assert c.health in Everywhere(modules);
      }
    }
  }

  // ---------------------------------------------------------------- what should be there

  function Placeholder(item: Expected): Container {
    Container("", item.service, item.role, MISSING_STATE, Missing)
  }

  function Services(modules: seq<Module>): set<string> {
    set c | c in AllContainers(modules) :: c.service
  }

  ghost predicate UniqueNames(modules: seq<Module>) {
    forall i, j :: 0 <= i < j < |modules| ==> modules[i].name != modules[j].name
  }

  function Find(modules: seq<Module>, name: string): (i: nat)
    ensures i <= |modules|
    ensures i < |modules| ==> modules[i].name == name
    ensures forall j :: 0 <= j < i ==> modules[j].name != name
  {
    if modules == [] then 0
    else if modules[0].name == name then 0
    else
      var i := Find(modules[1..], name);
      assert forall j :: 0 < j <= i && j < |modules| ==> modules[j] == modules[1..][j - 1];
      i + 1
  }

  /** The containers of the module of that name. */
  function In(modules: seq<Module>, name: string): seq<Container> {
    var i := Find(modules, name);
    if i < |modules| then modules[i].containers else []
  }

  function Put(modules: seq<Module>, item: Expected): seq<Module> {
    var i := Find(modules, item.home);
    if i < |modules| then
      modules[i := modules[i].(containers := modules[i].containers + [Placeholder(item)])]
    else modules + [Module(item.home, [Placeholder(item)], {}, "", "")]
  }

  /** The modules with a placeholder for every item whose service is not `seen`. */
  function Placed(modules: seq<Module>, expected: seq<Expected>, seen: set<string>): seq<Module> {
    if expected == [] then modules
    else
      var before := Placed(modules, Init(expected), seen);
      if Last(expected).service in seen then before else Put(before, Last(expected))
  }

  function Profiles(expected: seq<Expected>, name: string): set<string> {
    if expected == [] then {}
    else Profiles(Init(expected), name) + if Last(expected).home == name then Last(expected).profiles else {}
  }

  function SortKey(c: Container): string {
    if c.name != "" then c.name else c.service
  }

  predicate KeyBefore(c: Container, d: Container) {
    Less(SortKey(c), SortKey(d))
  }

  predicate WorseBefore(m: Module, n: Module) {
    || Severity(HealthOf(m)) < Severity(HealthOf(n))
    || (Severity(HealthOf(m)) == Severity(HealthOf(n)) && Less(m.name, n.name))
  }

  function Finished(m: Module, expected: seq<Expected>, addon: string): Module {
    m.(containers := Sorted(m.containers, KeyBefore), profiles := Profiles(expected, m.name), addon := addon)
  }

  function AllFinished(modules: seq<Module>, expected: seq<Expected>, addon: string): seq<Module> {
    seq(|modules|, i requires 0 <= i < |modules| => Finished(modules[i], expected, addon))
  }

  /** What `merge_expected` returns. */
  function Merged(modules: seq<Module>, expected: seq<Expected>, addon: string): seq<Module> {
    Sorted(AllFinished(Placed(modules, expected, Services(modules)), expected, addon), WorseBefore)
  }

  /** `merge_expected`. */
  method MergeExpected(modules: seq<Module>, expected: seq<Expected>, addon: string) returns (merged: seq<Module>)
    ensures merged == Merged(modules, expected, addon)
  {
    hide Put, Finished, Sorted, Services;
    var byName := modules;
    var seen := Services(modules);
    assert expected[..0] == [];
    for i := 0 to |expected|
      invariant byName == Placed(modules, expected[..i], seen)
    {
      assert Init(expected[..i + 1]) == expected[..i];
      if expected[i].service in seen {
        continue;
      }
      byName := Put(byName, expected[i]);
    }
    assert expected[..|expected|] == expected;
    var finished: seq<Module> := [];
    for i := 0 to |byName|
      invariant |finished| == i
      invariant forall j :: 0 <= j < i ==> finished[j] == Finished(byName[j], expected, addon)
    {
      finished := finished + [Finished(byName[i], expected, addon)];
    }
    assert finished == AllFinished(byName, expected, addon);
    merged := Sorted(finished, WorseBefore);
  }

  // ---------------------------------------------------------------- orders

  lemma KeyOrders()
    ensures IsOrdering(KeyBefore)
  {
    forall c: Container, d: Container
      ensures KeyBefore(c, d) ==> !KeyBefore(d, c)
    {
      LessIsTotal(SortKey(c), SortKey(d));
    }
    forall a: Container, b: Container, c: Container | !KeyBefore(b, a) && !KeyBefore(c, b)
      ensures !KeyBefore(c, a)
    {
      NotLessIsTransitive(SortKey(a), SortKey(b), SortKey(c));
    }
  }

  lemma NotLessIsTransitive(a: string, b: string, c: string)
    requires !Less(b, a) && !Less(c, b)
    ensures !Less(c, a)
  {
    LessIsTotal(a, b);
    LessIsTotal(b, c);
    LessIsTotal(a, c);
    if Less(a, b) && Less(b, c) {
      LessIsTransitive(a, b, c);
    }
  }

  lemma WorseOrders()
    ensures IsOrdering(WorseBefore)
  {
    hide HealthOf, Severity, Less;
    forall m: Module, n: Module
      ensures WorseBefore(m, n) ==> !WorseBefore(n, m)
    {
      LessIsTotal(m.name, n.name);
    }
    forall a: Module, b: Module, c: Module | !WorseBefore(b, a) && !WorseBefore(c, b)
      ensures !WorseBefore(c, a)
    {
      LessIsTotal(a.name, b.name);
      if !Less(b.name, a.name) && !Less(c.name, b.name) {
        NotLessIsTransitive(a.name, b.name, c.name);
      }
    }
  }

  // ---------------------------------------------------------------- nothing lost, everything there

  function Placeholders(expected: seq<Expected>, seen: set<string>, name: string): seq<Container> {
    if expected == [] then []
    else
      Placeholders(Init(expected), seen, name) +
      if Last(expected).service !in seen && Last(expected).home == name then [Placeholder(Last(expected))] else []
  }

  lemma FindIs(modules: seq<Module>, i: nat)
    requires UniqueNames(modules) && i < |modules|
    ensures Find(modules, modules[i].name) == i
  {
  }

  lemma PutIn(modules: seq<Module>, item: Expected, name: string)
    requires UniqueNames(modules)
    ensures UniqueNames(Put(modules, item))
    ensures In(Put(modules, item), name) == In(modules, name) + if item.home == name then [Placeholder(item)] else []
  {
    hide Find;
    var i := Find(modules, item.home);
    var after := Put(modules, item);
    assert UniqueNames(after);
    assert forall k :: 0 <= k < |modules| ==> after[k].name == modules[k].name;
    var j, k := Find(modules, name), Find(after, name);
    if j < |modules| {
      assert after[j].name == name;
      FindIs(after, j);
    } else if item.home == name {
      FindIs(after, |modules|);
    }
  }

  lemma {:induction false} PlacedIn(modules: seq<Module>, expected: seq<Expected>, seen: set<string>, name: string)
    requires UniqueNames(modules)
    ensures UniqueNames(Placed(modules, expected, seen))
    ensures In(Placed(modules, expected, seen), name) == In(modules, name) + Placeholders(expected, seen, name)
  {
    hide In, Put;
    if expected != [] {
      PlacedIn(modules, Init(expected), seen, name);
      PutIn(Placed(modules, Init(expected), seen), Last(expected), name);
    }
  }

  lemma FinishedIn(modules: seq<Module>, expected: seq<Expected>, addon: string, name: string)
    requires UniqueNames(modules)
    ensures UniqueNames(AllFinished(modules, expected, addon))
    ensures In(AllFinished(modules, expected, addon), name) == Sorted(In(modules, name), KeyBefore)
  {
    hide Find, Sorted, Profiles;
    var after := AllFinished(modules, expected, addon);
    var i, j := Find(modules, name), Find(after, name);
    if i < |modules| {
      assert after[i].name == name;
      FindIs(after, i);
    } else {
      assert j < |after| ==> modules[j].name == name;
      SortedStays([], KeyBefore);
    }
  }

  lemma FindsIfThere(modules: seq<Module>, name: string)
    ensures Find(modules, name) < |modules| <==> exists m :: m in modules && m.name == name
  {
    hide Find;
    var i := Find(modules, name);
    if i < |modules| {
      assert modules[i] in modules;
    }
  }

  /** Modules of different names in another order. */
  lemma SameModules(a: seq<Module>, b: seq<Module>, name: string)
    requires UniqueNames(a) && multiset(a) == multiset(b)
    ensures UniqueNames(b) && In(b, name) == In(a, name)
  {
    hide Find;
    NamesStayUnique(a, b);
    var i, j := Find(a, name), Find(b, name);
    SameElements(a, b);
    FindsIfThere(a, name);
    FindsIfThere(b, name);
    if i < |a| {
      assert a[i] in b;
      var k :| 0 <= k < |b| && b[k] == a[i];
      FindIs(b, k);
    }
  }

  lemma NamesStayUnique(a: seq<Module>, b: seq<Module>)
    requires UniqueNames(a) && multiset(a) == multiset(b)
    ensures UniqueNames(b)
  {
    forall i, j | 0 <= i < j < |b|
      ensures b[i].name != b[j].name
    {
      var left, right := b[..j], b[j..];
      assert b == left + right && left[i] == b[i] && right[0] == b[j];
      assert b[i] in multiset(left) && b[j] in multiset(right);
      TwiceIsTwice(a, b[i]);
      assert multiset(b)[b[i]] == multiset(left)[b[i]] + multiset(right)[b[i]];
      if b[i] != b[j] {
        assert b[i] in multiset(a) && b[j] in multiset(a);
        var k :| 0 <= k < |a| && a[k] == b[i];
        var l :| 0 <= l < |a| && a[l] == b[j];
        assert k != l;
      }
    }
  }

  lemma {:induction false} TwiceIsTwice(a: seq<Module>, m: Module)
    requires UniqueNames(a)
    ensures multiset(a)[m] <= 1
  {
    if a != [] {
      TwiceIsTwice(Init(a), m);
      assert a == Init(a) + [Last(a)];
      if Last(a) == m {
        assert m !in Init(a);
      }
    }
  }

  /** Merging keeps every container Docker reported in its module, and adds the placeholders, and
      no more, of the declared services it did not. */
  lemma MergeKeepsContainers(modules: seq<Module>, expected: seq<Expected>, addon: string, name: string)
    requires UniqueNames(modules)
    ensures UniqueNames(Merged(modules, expected, addon))
    ensures multiset(In(Merged(modules, expected, addon), name)) ==
            multiset(In(modules, name)) + multiset(Placeholders(expected, Services(modules), name))
  {
    hide Services, In, Sorted, Placed, AllFinished, Placeholders, UniqueNames;
    var seen := Services(modules);
    var placed := Placed(modules, expected, seen);
    var finished := AllFinished(placed, expected, addon);
    PlacedIn(modules, expected, seen, name);
    FinishedIn(placed, expected, addon, name);
    KeyOrders();
    SortSorts(In(placed, name), KeyBefore);
    WorseOrders();
    SortSorts(finished, WorseBefore);
    SameModules(finished, Merged(modules, expected, addon), name);
  }

  lemma {:induction false} ServicesOf(modules: seq<Module>, service: string)
    ensures service in Services(modules) <==>
            exists i, c :: 0 <= i < |modules| && c in modules[i].containers && c.service == service
  {
    if service in Services(modules) {
      var c :| c in AllContainers(modules) && c.service == service;
      ContainersOfModules(modules, c);
    }
    if i, c :| 0 <= i < |modules| && c in modules[i].containers && c.service == service {
      ContainersOfModules(modules, c);
    }
  }

  lemma PlaceholderThere(expected: seq<Expected>, seen: set<string>, k: nat)
    requires k < |expected| && expected[k].service !in seen
    ensures Placeholder(expected[k]) in Placeholders(expected, seen, expected[k].home)
  {
    if k < |expected| - 1 {
      PlaceholderThere(Init(expected), seen, k);
    }
  }

  lemma ServiceIn(modules: seq<Module>, name: string, c: Container)
    requires c in In(modules, name)
    ensures c.service in Services(modules)
  {
    ServicesOf(modules, c.service);
  }

  /** After merging every declared service has a container, Docker's own or a placeholder. */
  lemma MergeHasEveryService(modules: seq<Module>, expected: seq<Expected>, addon: string, k: nat)
    requires UniqueNames(modules) && k < |expected|
    ensures expected[k].service in Services(Merged(modules, expected, addon))
  {
    hide Services, In, Merged, Find;
    var item, merged := expected[k], Merged(modules, expected, addon);
    if item.service in Services(modules) {
      ServicesOf(modules, item.service);
      var i, c :| 0 <= i < |modules| && c in modules[i].containers && c.service == item.service;
      MergeKeepsContainers(modules, expected, addon, modules[i].name);
      LiveIsKept(modules, i, c, In(merged, modules[i].name), Placeholders(expected, Services(modules), modules[i].name));
      ServiceIn(merged, modules[i].name, c);
    } else {
      PlaceholderThere(expected, Services(modules), k);
      MergeKeepsContainers(modules, expected, addon, item.home);
      var c := Placeholder(item);
      assert c in multiset(Placeholders(expected, Services(modules), item.home));
      assert c in multiset(In(merged, item.home));
      ServiceIn(merged, item.home, c);
    }
  }

  lemma LiveIsKept(modules: seq<Module>, i: nat, c: Container, after: seq<Container>, added: seq<Container>)
    requires UniqueNames(modules) && i < |modules| && c in modules[i].containers
    requires multiset(after) == multiset(In(modules, modules[i].name)) + multiset(added)
    ensures c in after
  {
    FindIs(modules, i);
    assert c in multiset(modules[i].containers);
    assert c in multiset(after);
  }

  /** A placeholder says that the service is missing, and one is added for every declared service of
      the module that Docker did not report. */
  lemma {:induction false} PlaceholdersSayMissing(expected: seq<Expected>, seen: set<string>, name: string, c: Container)
    ensures c in Placeholders(expected, seen, name) <==>
              exists item :: && item in expected && item.service !in seen && item.home == name
                             && c == Container("", item.service, item.role, "missing", Missing)
  {
    if expected != [] {
      PlaceholdersSayMissing(Init(expected), seen, name, c);
      assert expected == Init(expected) + [Last(expected)];
    }
  }

  lemma {:induction false} ProfilesAre(expected: seq<Expected>, name: string, p: string)
    ensures p in Profiles(expected, name) <==> exists item :: item in expected && item.home == name && p in item.profiles
  {
    if expected != [] {
      ProfilesAre(Init(expected), name, p);
      assert expected == Init(expected) + [Last(expected)];
    }
  }

  // ---------------------------------------------------------------- which modules, and where

  /** The node of the module of that name, if there is one. */
  function NodeOf(modules: seq<Module>, name: string): Option<string> {
    var i := Find(modules, name);
    if i < |modules| then Some(modules[i].node) else None
  }

  lemma PutNode(modules: seq<Module>, item: Expected, name: string)
    requires UniqueNames(modules)
    ensures NodeOf(Put(modules, item), name)
            == if NodeOf(modules, name).None? && item.home == name then Some("") else NodeOf(modules, name)
  {
    hide Find;
    var after := Put(modules, item);
    assert forall k :: 0 <= k < |modules| ==> after[k].name == modules[k].name && after[k].node == modules[k].node;
    PutIn(modules, item, name);
    var j := Find(modules, name);
    if j < |modules| {
      assert after[j].name == name;
      FindIs(after, j);
    } else if item.home == name {
      FindIs(after, |modules|);
    }
  }

  lemma {:induction false} PlacedNode(modules: seq<Module>, expected: seq<Expected>, seen: set<string>, name: string)
    requires UniqueNames(modules)
    ensures NodeOf(Placed(modules, expected, seen), name) ==
            if NodeOf(modules, name).None? && Placeholders(expected, seen, name) != [] then Some("") else NodeOf(modules, name)
  {
    hide NodeOf, Put, UniqueNames;
    if expected != [] {
      PlacedIn(modules, Init(expected), seen, name);
      PlacedNode(modules, Init(expected), seen, name);
      PutNode(Placed(modules, Init(expected), seen), Last(expected), name);
    }
  }

  lemma FinishedNode(modules: seq<Module>, expected: seq<Expected>, addon: string, name: string)
    requires UniqueNames(modules)
    ensures NodeOf(AllFinished(modules, expected, addon), name) == NodeOf(modules, name)
  {
    hide Find, Sorted, Profiles;
    var after := AllFinished(modules, expected, addon);
    FinishedIn(modules, expected, addon, name);
    var i, j := Find(modules, name), Find(after, name);
    if i < |modules| {
      assert after[i].name == name;
      FindIs(after, i);
    } else {
      assert j < |after| ==> modules[j].name == name;
    }
  }

  lemma SameNode(a: seq<Module>, b: seq<Module>, name: string)
    requires UniqueNames(a) && multiset(a) == multiset(b)
    ensures NodeOf(b, name) == NodeOf(a, name)
  {
    hide Find;
    NamesStayUnique(a, b);
    var i, j := Find(a, name), Find(b, name);
    SameElements(a, b);
    FindsIfThere(a, name);
    FindsIfThere(b, name);
    if i < |a| {
      assert a[i] in b;
      var k :| 0 <= k < |b| && b[k] == a[i];
      FindIs(b, k);
    }
  }

  /** After merging there is a module for each that was there, on the same node, and one without a
      node for each module that only a missing service is declared for; and no other. */
  lemma MergeKeepsModules(modules: seq<Module>, expected: seq<Expected>, addon: string, name: string)
    requires UniqueNames(modules)
    ensures NodeOf(Merged(modules, expected, addon), name) == (
              if NodeOf(modules, name).Some? then NodeOf(modules, name)
              else if exists item :: item in expected && item.home == name && item.service !in Services(modules) then Some("")
              else None)
  {
    hide Services, NodeOf, Sorted, Placed, AllFinished, Placeholders, UniqueNames;
    var seen := Services(modules);
    var placed := Placed(modules, expected, seen);
    var finished := AllFinished(placed, expected, addon);
    PlacedIn(modules, expected, seen, name);
    PlacedNode(modules, expected, seen, name);
    FinishedIn(placed, expected, addon, name);
    FinishedNode(placed, expected, addon, name);
    WorseOrders();
    SortSorts(finished, WorseBefore);
    SameNode(finished, Merged(modules, expected, addon), name);
    var holders := Placeholders(expected, seen, name);
    if holders != [] {
      PlaceholdersSayMissing(expected, seen, name, holders[0]);
      assert holders[0] in holders;
    }
    if item :| item in expected && item.home == name && item.service !in seen {
      PlaceholdersSayMissing(expected, seen, name, Container("", item.service, item.role, "missing", Missing));
    }
  }

  function ShownName(c: Container): string {
    if c.name != "" then c.name else c.service
  }

  /** How the page lists them: the modules worst first and then by name, their containers by name or
      service, each module with the profiles of everything declared for it and the add-on. */
  lemma MergedIsListed(modules: seq<Module>, expected: seq<Expected>, addon: string)
    ensures var merged := Merged(modules, expected, addon);
            && (forall i, j :: 0 <= i < j < |merged| ==>
                  var a, b := Severity(HealthOf(merged[i])), Severity(HealthOf(merged[j]));
                  a < b || (a == b && !Less(merged[j].name, merged[i].name)))
            && (forall i :: 0 <= i < |merged| ==>
                  && merged[i].addon == addon
                  && (forall p :: p in merged[i].profiles <==>
                        exists item :: item in expected && item.home == merged[i].name && p in item.profiles)
                  && (forall c, d :: 0 <= c < d < |merged[i].containers| ==>
                        !Less(ShownName(merged[i].containers[d]), ShownName(merged[i].containers[c]))))
  {
    hide HealthOf, Merged, Less, Profiles, Severity;
    MergedIsFinished(modules, expected, addon);
    var merged := Merged(modules, expected, addon);
    forall i | 0 <= i < |merged|
      ensures IsFinished(merged[i], expected, addon)
      ensures forall p :: p in merged[i].profiles <==>
                exists item :: item in expected && item.home == merged[i].name && p in item.profiles
    {
      forall p
        ensures p in Profiles(expected, merged[i].name) <==>
                  exists item :: item in expected && item.home == merged[i].name && p in item.profiles
      {
        ProfilesAre(expected, merged[i].name, p);
      }
    }
  }

  // ---------------------------------------------------------------- merging again

  lemma {:induction false} NothingToPlace(modules: seq<Module>, expected: seq<Expected>, seen: set<string>)
    requires forall k :: 0 <= k < |expected| ==> expected[k].service in seen
    ensures Placed(modules, expected, seen) == modules
  {
    if expected != [] {
      NothingToPlace(modules, Init(expected), seen);
    }
  }

  ghost predicate IsFinished(m: Module, expected: seq<Expected>, addon: string) {
    InOrder(m.containers, KeyBefore) && m.profiles == Profiles(expected, m.name) && m.addon == addon
  }

  lemma FinishedOnce(m: Module, expected: seq<Expected>, addon: string)
    ensures IsFinished(Finished(m, expected, addon), expected, addon)
    ensures IsFinished(m, expected, addon) ==> Finished(m, expected, addon) == m
  {
    hide KeyBefore, Sorted, Profiles;
    KeyOrders();
    SortSorts(m.containers, KeyBefore);
    if IsFinished(m, expected, addon) {
      SortedStays(m.containers, KeyBefore);
    }
  }

  lemma MergedIsFinished(modules: seq<Module>, expected: seq<Expected>, addon: string)
    ensures var merged := Merged(modules, expected, addon);
            InOrder(merged, WorseBefore) && forall i :: 0 <= i < |merged| ==> IsFinished(merged[i], expected, addon)
  {
    hide WorseBefore, Sorted, Finished, IsFinished, Placed, InOrder;
    var placed := Placed(modules, expected, Services(modules));
    var finished := AllFinished(placed, expected, addon);
    WorseOrders();
    SortSorts(finished, WorseBefore);
    SortKeepsElements(finished, WorseBefore);
    var merged := Merged(modules, expected, addon);
    forall i | 0 <= i < |merged|
      ensures IsFinished(merged[i], expected, addon)
    {
      assert merged[i] in finished;
      var j :| 0 <= j < |finished| && finished[j] == merged[i];
      FinishedOnce(placed[j], expected, addon);
    }
  }

  /** Merging the same declaration again changes nothing. */
  lemma MergingAgain(modules: seq<Module>, expected: seq<Expected>, addon: string)
    requires UniqueNames(modules)
    ensures var merged := Merged(modules, expected, addon);
            Merged(merged, expected, addon) == merged
  {
    hide WorseBefore, Sorted, Finished, IsFinished, Placed, InOrder, Services, UniqueNames;
    var merged := Merged(modules, expected, addon);
    MergedIsFinished(modules, expected, addon);
    hide Merged;
    forall k | 0 <= k < |expected|
      ensures expected[k].service in Services(merged)
    {
      MergeHasEveryService(modules, expected, addon, k);
    }
    NothingToPlace(merged, expected, Services(merged));
    AlreadyFinished(merged, expected, addon);
    SortedStays(merged, WorseBefore);
    MergedOf(merged, expected, addon);
  }

  lemma AlreadyFinished(modules: seq<Module>, expected: seq<Expected>, addon: string)
    requires forall i :: 0 <= i < |modules| ==> IsFinished(modules[i], expected, addon)
    ensures AllFinished(modules, expected, addon) == modules
  {
    hide IsFinished, Finished;
    forall i | 0 <= i < |modules|
      ensures Finished(modules[i], expected, addon) == modules[i]
    {
      FinishedOnce(modules[i], expected, addon);
    }
  }

  lemma MergedOf(modules: seq<Module>, expected: seq<Expected>, addon: string)
    requires Placed(modules, expected, Services(modules)) == modules
    requires AllFinished(modules, expected, addon) == modules && Sorted(modules, WorseBefore) == modules
    ensures Merged(modules, expected, addon) == modules
  {
    hide Placed, Services, AllFinished, Sorted;
  }
}
