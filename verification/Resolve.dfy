/** Which add-ons the enabled catalogs offer together (`resolve.py`). */
module Resolve {
  import opened Collections
  import opened Splitting
  import opened Text
  import opened Wrappers
  import SemVer

  const UNKNOWN := "unknown"

  /** What the resolution reads of a manifest, and the rest of it. */
  datatype Manifest = Manifest(version: Option<string>, rest: string)

  datatype Catalog = Catalog(name: string, enabled: bool, addons: seq<(string, Manifest)>)

  /** One add-on in one catalog. */
  datatype Hit = Hit(addon: string, manifest: Manifest, catalog: string)

  datatype Installed = Installed(catalog: string, managed: bool, version: string)

  datatype Resolved = Resolved(key: string, name: string, catalog: string, manifest: Manifest,
                               shadowedBy: seq<string>, isVariant: bool)

  datatype Update = Update(name: string, installed: string, available: string, catalog: string)

  /** `dict`: the keys in the order they were first set, and their values. */
  datatype Dict<V> = Dict(order: seq<string>, items: map<string, V>)

  function VersionOf(m: Manifest): string {
    if m.version.None? || m.version.value == "" then UNKNOWN else m.version.value
  }

  function Version(h: Hit): string {
    VersionOf(h.manifest)
  }

  // ---------------------------------------------------------------- what the catalogs ship

  function HitsOf(c: Catalog): seq<Hit> {
    seq(|c.addons|, i requires 0 <= i < |c.addons| => Hit(c.addons[i].0, c.addons[i].1, c.name))
  }

  /** Every add-on of every enabled catalog, in the order of the registry. */
  function ShippedBy(catalogs: seq<Catalog>): seq<Hit> {
    if catalogs == [] then []
    else ShippedBy(Init(catalogs)) + if Last(catalogs).enabled then HitsOf(Last(catalogs)) else []
  }

  /** The add-on names, each once, in the order they are met. */
  function Names(hits: seq<Hit>): (names: seq<string>)
    ensures Distinct(names)
  {
    if hits == [] then []
    else
      var before := Names(Init(hits));
      if Last(hits).addon in before then before else before + [Last(hits).addon]
  }

  /** What one version of an add-on is found as. */
  function At(hits: seq<Hit>, n: string, v: string): seq<Hit> {
    if hits == [] then []
    else At(Init(hits), n, v) + if Last(hits).addon == n && Version(Last(hits)) == v then [Last(hits)] else []
  }

  /** The versions of an add-on, each once, in the order they are met. */
  function Versions(hits: seq<Hit>, n: string): (versions: seq<string>)
    ensures Distinct(versions)
    ensures forall v :: v in versions <==> At(hits, n, v) != []
  {
    if hits == [] then []
    else
      var before := Versions(Init(hits), n);
      if Last(hits).addon == n && Version(Last(hits)) !in before then before + [Version(Last(hits))] else before
  }

  lemma {:induction false} AtIs(hits: seq<Hit>, n: string, v: string)
    ensures forall h :: h in At(hits, n, v) <==> h in hits && h.addon == n && Version(h) == v
  {
    if hits != [] {
      AtIs(Init(hits), n, v);
      assert hits == Init(hits) + [Last(hits)];
    }
  }

  lemma {:induction false} NamesAre(hits: seq<Hit>, n: string)
    ensures n in Names(hits) <==> exists i :: 0 <= i < |hits| && hits[i].addon == n
  {
    if hits != [] {
      NamesAre(Init(hits), n);
      assert forall i :: 0 <= i < |hits| - 1 ==> hits[i] == Init(hits)[i];
      assert hits[|hits| - 1] == Last(hits);
    }
  }

  // ---------------------------------------------------------------- the entries

  function CatalogNames(hits: seq<Hit>): (names: seq<string>)
    ensures |names| == |hits|
    ensures forall i :: 0 <= i < |hits| ==> names[i] == hits[i].catalog
  {
    seq(|hits|, i requires 0 <= i < |hits| => hits[i].catalog)
  }

  function EntryOf(found: seq<Hit>, isVariant: bool): Resolved
    requires found != []
  {
    var first := found[0];
    Resolved(if isVariant then first.addon + "@" + first.catalog else first.addon,
             first.addon, first.catalog, first.manifest, CatalogNames(found[1..]), isVariant)
  }

  /** The first of the versions that `catalog` ships, or the first of all. */
  function PrimaryIndex(hits: seq<Hit>, n: string, versions: seq<string>, catalog: string): nat {
    IndexOf(hits, n, versions, catalog, 0)
  }

  function IndexOf(hits: seq<Hit>, n: string, versions: seq<string>, catalog: string, from: nat): (i: nat)
    ensures i == 0 || i < |versions|
    decreases |versions| - from
  {
    if from >= |versions| then 0
    else if catalog in CatalogNames(At(hits, n, versions[from])) then from
    else IndexOf(hits, n, versions, catalog, from + 1)
  }

  function Promoted(versions: seq<string>, i: nat): (order: seq<string>)
    requires i < |versions|
    ensures |order| == |versions| && order[0] == versions[i]
    ensures forall v :: v in order <==> v in versions
  {
    var order := [versions[i]] + versions[..i] + versions[i + 1..];
    assert forall j :: 0 <= j < i ==> order[j + 1] == versions[j];
    assert forall j :: i < j < |versions| ==> order[j] == versions[j];
    order
  }

  /** The versions of the add-on in the order they are listed. */
  function Listing(hits: seq<Hit>, n: string, installed: map<string, Installed>): (order: seq<string>)
    ensures forall v :: v in order <==> v in Versions(hits, n)
  {
    var versions := Versions(hits, n);
    if versions == [] then []
    else Promoted(versions, if n in installed then PrimaryIndex(hits, n, versions, installed[n].catalog) else 0)
  }

  function EntriesOf(hits: seq<Hit>, n: string, installed: map<string, Installed>): (entries: seq<Resolved>)
    ensures |entries| == |Listing(hits, n, installed)|
    ensures forall k :: 0 <= k < |entries| ==> At(hits, n, Listing(hits, n, installed)[k]) != [] &&
                                               entries[k] == EntryOf(At(hits, n, Listing(hits, n, installed)[k]), k != 0)
  {
    var order := Listing(hits, n, installed);
    seq(|order|, k requires 0 <= k < |order| =>
      assert order[k] in Versions(hits, n);
      EntryOf(At(hits, n, order[k]), k != 0))
  }

  function Entries(hits: seq<Hit>, names: seq<string>, installed: map<string, Installed>): seq<Resolved> {
    if names == [] then []
    else Entries(hits, Init(names), installed) + EntriesOf(hits, Last(names), installed)
  }

  /** What `resolve_catalog_addons` returns for the shipped add-ons. */
  function Resolution(hits: seq<Hit>, installed: map<string, Installed>): seq<Resolved> {
    Entries(hits, Names(hits), installed)
  }

  // ---------------------------------------------------------------- collecting

  ghost predicate IsGroup(group: Dict<seq<Hit>>, hits: seq<Hit>, n: string) {
    && group.order == Versions(hits, n)
    && (forall v :: v in group.items <==> v in group.order)
    && (forall v :: v in group.items ==> group.items[v] == At(hits, n, v))
  }

  ghost predicate Groups(table: Dict<Dict<seq<Hit>>>, hits: seq<Hit>) {
    && table.order == Names(hits)
    && (forall n :: n in table.items <==> n in table.order)
    && (forall n :: n in table.items ==> IsGroup(table.items[n], hits, n))
  }

  /** `d.setdefault(key, default)` of the table, without the lookup. */
  function SetDefault<V>(d: Dict<V>, key: string, value: V): Dict<V> {
    if key in d.items then d else Dict(d.order + [key], d.items[key := value])
  }

  function WithHit(group: Dict<seq<Hit>>, h: Hit): Dict<seq<Hit>> {
    var ready := SetDefault(group, Version(h), []);
    ready.(items := ready.items[Version(h) := ready.items[Version(h)] + [h]])
  }

  lemma GroupGrows(group: Dict<seq<Hit>>, hits: seq<Hit>, h: Hit)
    requires IsGroup(group, hits, h.addon)
    ensures IsGroup(WithHit(group, h), hits + [h], h.addon)
  {
    assert Init(hits + [h]) == hits;
  }

  lemma OtherGroupStays(group: Dict<seq<Hit>>, hits: seq<Hit>, n: string, h: Hit)
    requires IsGroup(group, hits, n) && h.addon != n
    ensures IsGroup(group, hits + [h], n)
  {
    assert Init(hits + [h]) == hits;
    forall v: string
      ensures At(hits + [h], n, v) == At(hits, n, v)
    {
    }
  }

  lemma HasFirst<T>(s: seq<T>)
    ensures s == [] || s[0] in s
  {
  }

  lemma NoGroupYet(hits: seq<Hit>, n: string)
    requires n !in Names(hits)
    ensures Versions(hits, n) == [] && forall v :: At(hits, n, v) == []
  {
    forall v: string
      ensures At(hits, n, v) == []
    {
      HasFirst(At(hits, n, v));
    }
    HasFirst(Versions(hits, n));
  }

  /** The group the hit goes to, before it does. */
  function GroupFor(table: Dict<Dict<seq<Hit>>>, n: string): Dict<seq<Hit>> {
    if n in table.items then table.items[n] else Dict([], map[])
  }

  lemma GroupForIsGroup(table: Dict<Dict<seq<Hit>>>, hits: seq<Hit>, n: string)
    requires Groups(table, hits)
    ensures IsGroup(GroupFor(table, n), hits, n)
  {
    hide Names, Versions, At;
    if n !in table.items {
      NoGroupYet(hits, n);
    }
  }

  lemma NamesGrow(hits: seq<Hit>, h: Hit)
    ensures Names(hits + [h]) == if h.addon in Names(hits) then Names(hits) else Names(hits) + [h.addon]
  {
    assert Init(hits + [h]) == hits;
  }

  method AddHit(table: Dict<Dict<seq<Hit>>>, ghost hits: seq<Hit>, h: Hit) returns (after: Dict<Dict<seq<Hit>>>)
    requires Groups(table, hits)
    ensures Groups(after, hits + [h])
  {
    hide IsGroup, Names, Versions, At, WithHit;
    GroupForIsGroup(table, hits, h.addon);
    var ready := SetDefault(table, h.addon, Dict([], map[]));
    assert ready.items[h.addon] == GroupFor(table, h.addon);
    GroupGrows(ready.items[h.addon], hits, h);
    after := ready.(items := ready.items[h.addon := WithHit(ready.items[h.addon], h)]);
    NamesGrow(hits, h);
    forall n | n in after.items
      ensures IsGroup(after.items[n], hits + [h], n)
    {
      if n != h.addon {
        OtherGroupStays(table.items[n], hits, n, h);
      }
    }
  }

  method CollectCatalog(table: Dict<Dict<seq<Hit>>>, ghost hits: seq<Hit>, c: Catalog)
    returns (after: Dict<Dict<seq<Hit>>>)
    requires Groups(table, hits)
    ensures Groups(after, hits + HitsOf(c))
  {
    hide Groups;
    after := table;
    ghost var all := HitsOf(c);
    assert hits + all[..0] == hits;
    for j := 0 to |c.addons|
      invariant Groups(after, hits + all[..j])
    {
      after := AddHit(after, hits + all[..j], Hit(c.addons[j].0, c.addons[j].1, c.name));
      assert all[..j + 1] == all[..j] + [all[j]];
      assert hits + all[..j] + [all[j]] == hits + all[..j + 1];
    }
    assert all[..|c.addons|] == all;
  }

  lemma NothingShipped()
    ensures Groups(Dict([], map[]), ShippedBy([]))
  {
  }

  lemma ShippedGrows(catalogs: seq<Catalog>, i: nat)
    requires i < |catalogs|
    ensures ShippedBy(catalogs[..i + 1]) ==
            if catalogs[i].enabled then ShippedBy(catalogs[..i]) + HitsOf(catalogs[i]) else ShippedBy(catalogs[..i])
  {
    assert Init(catalogs[..i + 1]) == catalogs[..i];
    assert ShippedBy(catalogs[..i]) + [] == ShippedBy(catalogs[..i]);
  }

  /** The hits of the enabled catalogs by name and version. */
  method Collect(catalogs: seq<Catalog>) returns (table: Dict<Dict<seq<Hit>>>)
    ensures Groups(table, ShippedBy(catalogs))
  {
    hide Groups, ShippedBy, HitsOf;
    table := Dict([], map[]);
    NothingShipped();
    assert catalogs[..0] == [];
    for i := 0 to |catalogs|
      invariant Groups(table, ShippedBy(catalogs[..i]))
    {
      ShippedGrows(catalogs, i);
      if catalogs[i].enabled {
        table := CollectCatalog(table, ShippedBy(catalogs[..i]), catalogs[i]);
      }
    }
    assert catalogs[..|catalogs|] == catalogs;
  }

  // ---------------------------------------------------------------- resolving

  /** The versions of a group in the order they are listed. */
  method ListVersions(group: Dict<seq<Hit>>, installed: Option<Installed>, ghost hits: seq<Hit>, ghost n: string)
    returns (order: seq<string>)
    requires IsGroup(group, hits, n) && group.order != []
    ensures order == Promoted(group.order, if installed.Some? then PrimaryIndex(hits, n, group.order, installed.value.catalog) else 0)
  {
    hide At, Versions, Promoted;
    var primary: nat := 0;
    if installed.Some? {
      var i: nat := 0;
      var searching := true;
      while searching && i < |group.order|
        invariant i <= |group.order| && primary < |group.order|
        invariant searching ==> PrimaryIndex(hits, n, group.order, installed.value.catalog) ==
                                IndexOf(hits, n, group.order, installed.value.catalog, i) && primary == 0
        invariant !searching ==> PrimaryIndex(hits, n, group.order, installed.value.catalog) == primary
        decreases |group.order| - i, searching
      {
        assert group.order[i] in group.items;
        if installed.value.catalog in CatalogNames(group.items[group.order[i]]) {
          primary, searching := i, false;
        } else {
          i := i + 1;
        }
      }
    }
    order := Promoted(group.order, primary);
  }

  lemma EntryOfGroup(group: Dict<seq<Hit>>, hits: seq<Hit>, n: string, installed: map<string, Installed>, k: nat)
    requires IsGroup(group, hits, n) && k < |Listing(hits, n, installed)|
    ensures var v := Listing(hits, n, installed)[k];
            v in group.items && group.items[v] != [] && EntriesOf(hits, n, installed)[k] == EntryOf(group.items[v], k != 0)
  {
    hide At, Versions, EntryOf, Listing;
    assert Listing(hits, n, installed)[k] in group.items;
  }

  lemma ListingOfGroup(group: Dict<seq<Hit>>, hits: seq<Hit>, n: string, installed: map<string, Installed>)
    requires IsGroup(group, hits, n) && group.order != []
    ensures Listing(hits, n, installed) ==
            Promoted(group.order, if n in installed then PrimaryIndex(hits, n, group.order, installed[n].catalog) else 0)
  {
    hide At, Versions, Promoted, PrimaryIndex;
  }

  /** The entries of one add-on. */
  method ListEntries(group: Dict<seq<Hit>>, installed: map<string, Installed>, ghost hits: seq<Hit>, n: string)
    returns (entries: seq<Resolved>)
    requires IsGroup(group, hits, n) && group.order != []
    ensures entries == EntriesOf(hits, n, installed)
  {
    hide At, Versions, Promoted, EntryOf, IndexOf, PrimaryIndex, EntriesOf, Listing, IsGroup, CatalogNames;
    var order := ListVersions(group, if n in installed then Some(installed[n]) else None, hits, n);
    ListingOfGroup(group, hits, n, installed);
    ghost var all := EntriesOf(hits, n, installed);
    entries := [];
    for k := 0 to |order|
      invariant entries == all[..k]
    {
      EntryOfGroup(group, hits, n, installed, k);
      entries := entries + [EntryOf(group.items[order[k]], k != 0)];
      assert all[..k + 1] == all[..k] + [all[k]];
    }
    assert all[..|order|] == all;
  }

  /** `resolve_catalog_addons`. */
  method ResolveCatalogAddons(catalogs: seq<Catalog>, installed: map<string, Installed>) returns (results: seq<Resolved>)
    ensures results == Resolution(ShippedBy(catalogs), installed)
  {
    hide IsGroup, Names, EntriesOf, ShippedBy;
    var table := Collect(catalogs);
    ghost var hits := ShippedBy(catalogs);
    results := [];
    assert table.order[..0] == [];
    for i := 0 to |table.order|
      invariant results == Entries(hits, table.order[..i], installed)
    {
      var n := table.order[i];
      NamedIsShipped(table.items[n], hits, n);
      var entries := ListEntries(table.items[n], installed, hits, n);
      assert Init(table.order[..i + 1]) == table.order[..i];
      results := results + entries;
    }
    assert table.order[..|table.order|] == table.order;
  }

  lemma NamedIsShipped(group: Dict<seq<Hit>>, hits: seq<Hit>, n: string)
    requires IsGroup(group, hits, n) && n in Names(hits)
    ensures group.order != []
  {
    NamesAre(hits, n);
    var i :| 0 <= i < |hits| && hits[i].addon == n;
    AtIs(hits, n, Version(hits[i]));
    assert hits[i] in At(hits, n, Version(hits[i]));
    assert Version(hits[i]) in Versions(hits, n);
  }

  // ---------------------------------------------------------------- one add-on

  /** The entries of an add-on among all. */
  function Named(entries: seq<Resolved>, n: string): seq<Resolved> {
    if entries == [] then []
    else Named(Init(entries), n) + if Last(entries).name == n then [Last(entries)] else []
  }

  lemma {:induction false} NamedAppend(a: seq<Resolved>, b: seq<Resolved>, n: string)
    ensures Named(a + b, n) == Named(a, n) + Named(b, n)
  {
    if b == [] {
      assert a + b == a;
    } else {
      NamedAppend(a, Init(b), n);
      assert Init(a + b) == a + Init(b);
    }
  }

  lemma {:induction false} NamedAllOrNone(entries: seq<Resolved>, m: string, n: string)
    requires forall i :: 0 <= i < |entries| ==> entries[i].name == m
    ensures Named(entries, n) == if m == n then entries else []
  {
    if entries != [] {
      NamedAllOrNone(Init(entries), m, n);
    }
  }

  lemma EntriesAreNamed(hits: seq<Hit>, n: string, installed: map<string, Installed>)
    ensures forall k :: 0 <= k < |EntriesOf(hits, n, installed)| ==> EntriesOf(hits, n, installed)[k].name == n
  {
    hide Listing, Versions;
    var order := Listing(hits, n, installed);
    forall k | 0 <= k < |order|
      ensures At(hits, n, order[k]) != [] ==> EntryOf(At(hits, n, order[k]), k != 0).name == n
    {
      AtIs(hits, n, order[k]);
      HasFirst(At(hits, n, order[k]));
    }
  }

  lemma InitIsDistinct(names: seq<string>)
    requires Distinct(names) && names != []
    ensures Distinct(Init(names)) && Last(names) !in Init(names)
    ensures forall n :: n in names <==> n in Init(names) || n == Last(names)
  {
    assert names == Init(names) + [Last(names)];
  }

  lemma NamedNone(n: string)
    ensures Named([], n) == []
  {
  }

  lemma {:induction false} NamedEntries(hits: seq<Hit>, names: seq<string>, installed: map<string, Installed>, n: string)
    requires Distinct(names)
    ensures Named(Entries(hits, names, installed), n) == if n in names then EntriesOf(hits, n, installed) else []
  {
    hide EntriesOf, Named, Distinct;
    if names == [] {
      NamedNone(n);
    } else {
      var last := Last(names);
      InitIsDistinct(names);
      NamedEntries(hits, Init(names), installed, n);
      NamedAppend(Entries(hits, Init(names), installed), EntriesOf(hits, last, installed), n);
      EntriesAreNamed(hits, last, installed);
      NamedAllOrNone(EntriesOf(hits, last, installed), last, n);
    }
  }

  lemma UnnamedHasNoEntries(hits: seq<Hit>, n: string, installed: map<string, Installed>)
    requires n !in Names(hits)
    ensures EntriesOf(hits, n, installed) == []
  {
    hide Names;
    NoGroupYet(hits, n);
  }

  lemma ResolvedByName(hits: seq<Hit>, installed: map<string, Installed>, n: string)
    ensures Named(Resolution(hits, installed), n) == EntriesOf(hits, n, installed)
  {
    hide EntriesOf, Names;
    NamedEntries(hits, Names(hits), installed, n);
    if n !in Names(hits) {
      UnnamedHasNoEntries(hits, n, installed);
    }
  }

  // ---------------------------------------------------------------- nothing lost, nothing twice

  /** The catalogs an entry stands for. */
  function Stands(e: Resolved): multiset<string> {
    multiset{e.catalog} + multiset(e.shadowedBy)
  }

  function AllStand(entries: seq<Resolved>): multiset<string> {
    if entries == [] then multiset{} else AllStand(Init(entries)) + Stands(Last(entries))
  }

  /** The catalogs that ship an add-on. */
  function Shippers(hits: seq<Hit>, n: string): multiset<string> {
    if hits == [] then multiset{}
    else Shippers(Init(hits), n) + if Last(hits).addon == n then multiset{Last(hits).catalog} else multiset{}
  }

  /** The catalogs of the given versions. */
  function Found(hits: seq<Hit>, n: string, versions: seq<string>): multiset<string> {
    if versions == [] then multiset{}
    else Found(hits, n, Init(versions)) + multiset(CatalogNames(At(hits, n, Last(versions))))
  }

  lemma CatalogNamesGrow(hits: seq<Hit>, h: Hit)
    ensures CatalogNames(hits + [h]) == CatalogNames(hits) + [h.catalog]
  {
  }

  lemma AtGrows(hits: seq<Hit>, h: Hit, n: string, v: string)
    ensures At(hits + [h], n, v) == At(hits, n, v) + if h.addon == n && Version(h) == v then [h] else []
  {
    assert Init(hits + [h]) == hits;
  }

  lemma {:induction false} FoundGrows(hits: seq<Hit>, h: Hit, n: string, versions: seq<string>)
    requires Distinct(versions)
    ensures Found(hits + [h], n, versions) ==
            Found(hits, n, versions) +
            if h.addon == n && Version(h) in versions then multiset{h.catalog} else multiset{}
  {
    hide CatalogNames, At, Distinct, Version;
    if versions != [] {
      var v := Last(versions);
      InitIsDistinct(versions);
      FoundGrows(hits, h, n, Init(versions));
      AtGrows(hits, h, n, v);
      if h.addon == n && Version(h) == v {
        CatalogNamesGrow(At(hits, n, v), h);
      } else {
        assert At(hits + [h], n, v) == At(hits, n, v);
      }
    }
  }

  lemma {:induction false} FoundNothing(n: string, versions: seq<string>)
    ensures Found([], n, versions) == multiset{}
  {
    if versions != [] {
      FoundNothing(n, Init(versions));
    }
  }

  lemma {:induction false} FoundIsShipped(hits: seq<Hit>, n: string, versions: seq<string>)
    requires Distinct(versions)
    requires forall i :: 0 <= i < |hits| && hits[i].addon == n ==> Version(hits[i]) in versions
    ensures Found(hits, n, versions) == Shippers(hits, n)
  {
    hide Found;
    if hits == [] {
      FoundNothing(n, versions);
    } else {
      FoundIsShipped(Init(hits), n, versions);
      assert hits == Init(hits) + [Last(hits)];
      FoundGrows(Init(hits), Last(hits), n, versions);
    }
  }

  lemma EntryStands(found: seq<Hit>, isVariant: bool)
    requires found != []
    ensures Stands(EntryOf(found, isVariant)) == multiset(CatalogNames(found))
  {
    assert CatalogNames(found) == [found[0].catalog] + CatalogNames(found[1..]);
  }

  lemma {:induction false} AllStandIsFound(hits: seq<Hit>, n: string, order: seq<string>, entries: seq<Resolved>)
    requires |entries| == |order|
    requires forall k :: 0 <= k < |order| ==> At(hits, n, order[k]) != [] && entries[k] == EntryOf(At(hits, n, order[k]), k != 0)
    ensures AllStand(entries) == Found(hits, n, order)
  {
    hide At, EntryOf, CatalogNames, Stands;
    if order != [] {
      AllStandIsFound(hits, n, Init(order), Init(entries));
      EntryStands(At(hits, n, Last(order)), |order| != 1);
    }
  }

  lemma PromotedIsDistinct(versions: seq<string>, i: nat)
    requires i < |versions| && Distinct(versions)
    ensures Distinct(Promoted(versions, i))
  {
    var order := Promoted(versions, i);
    assert forall j :: 0 < j <= i ==> order[j] == versions[j - 1];
    assert forall j :: i < j < |versions| ==> order[j] == versions[j];
  }

  lemma ListingIsDistinct(hits: seq<Hit>, n: string, installed: map<string, Installed>)
    ensures Distinct(Listing(hits, n, installed))
  {
    hide Versions, IndexOf, Promoted;
    var versions := Versions(hits, n);
    if versions != [] {
      PromotedIsDistinct(versions, if n in installed then PrimaryIndex(hits, n, versions, installed[n].catalog) else 0);
    }
  }

  /** Resolving loses no add-on of an enabled catalog and lists none twice: the catalogs that ship
      it are those its entries come from or shadow. */
  lemma ResolutionConserves(hits: seq<Hit>, installed: map<string, Installed>, n: string)
    ensures AllStand(Named(Resolution(hits, installed), n)) == Shippers(hits, n)
  {
    hide Listing, Versions, Resolution, AllStand, Named, Found, Shippers, EntriesOf;
    ResolvedByName(hits, installed, n);
    var order := Listing(hits, n, installed);
    ListingIsDistinct(hits, n, installed);
    AllStandIsFound(hits, n, order, EntriesOf(hits, n, installed));
    forall i | 0 <= i < |hits| && hits[i].addon == n
      ensures Version(hits[i]) in order
    {
      AtIs(hits, n, Version(hits[i]));
      assert hits[i] in At(hits, n, Version(hits[i]));
    }
    FoundIsShipped(hits, n, order);
  }

  /** No add-on twice in one catalog. */
  ghost predicate ShippedOnce(hits: seq<Hit>) {
    forall i, j :: 0 <= i < j < |hits| && hits[i].addon == hits[j].addon ==> hits[i].catalog != hits[j].catalog
  }

  /** What the registry and a directory ensure: catalogs by different names, and in each of them
      add-ons by different names. */
  ghost predicate IsRegistry(catalogs: seq<Catalog>) {
    && (forall i, j :: 0 <= i < j < |catalogs| ==> catalogs[i].name != catalogs[j].name)
    && (forall i, j, k :: 0 <= i < |catalogs| && 0 <= j < k < |catalogs[i].addons| ==>
          catalogs[i].addons[j].0 != catalogs[i].addons[k].0)
  }

  lemma {:induction false} ShippedHasSource(catalogs: seq<Catalog>, k: nat)
    requires k < |ShippedBy(catalogs)|
    ensures exists i :: 0 <= i < |catalogs| && catalogs[i].name == ShippedBy(catalogs)[k].catalog
  {
    var before := ShippedBy(Init(catalogs));
    if k < |before| {
      ShippedHasSource(Init(catalogs), k);
      var i :| 0 <= i < |Init(catalogs)| && Init(catalogs)[i].name == before[k].catalog;
      assert catalogs[i].name == ShippedBy(catalogs)[k].catalog;
    } else {
      assert catalogs[|catalogs| - 1].name == ShippedBy(catalogs)[k].catalog;
    }
  }

  lemma {:induction false} RegistryShipsOnce(catalogs: seq<Catalog>)
    requires IsRegistry(catalogs)
    ensures ShippedOnce(ShippedBy(catalogs))
  {
    if catalogs != [] {
      var last := Last(catalogs);
      var before := ShippedBy(Init(catalogs));
      RegistryShipsOnce(Init(catalogs));
      forall k | 0 <= k < |before|
        ensures before[k].catalog != last.name
      {
        ShippedHasSource(Init(catalogs), k);
      }
      assert forall j, k :: 0 <= j < k < |last.addons| ==> last.addons[j].0 != last.addons[k].0;
    }
  }

  ghost predicate Ships(hits: seq<Hit>, n: string, catalog: string) {
    exists i :: 0 <= i < |hits| && hits[i].addon == n && hits[i].catalog == catalog
  }

  lemma {:induction false} ShippersOnce(hits: seq<Hit>, n: string, catalog: string)
    requires ShippedOnce(hits)
    ensures Shippers(hits, n)[catalog] == if Ships(hits, n, catalog) then 1 else 0
  {
    if hits != [] {
      ShippersOnce(Init(hits), n, catalog);
      ShipsMore(Init(hits), Last(hits), n, catalog);
      assert hits == Init(hits) + [Last(hits)];
      hide Ships;
    }
  }

  lemma ShipsMore(hits: seq<Hit>, h: Hit, n: string, catalog: string)
    requires ShippedOnce(hits + [h])
    ensures Ships(hits + [h], n, catalog) <==> Ships(hits, n, catalog) || (h.addon == n && h.catalog == catalog)
    ensures h.addon == n && h.catalog == catalog ==> !Ships(hits, n, catalog)
  {
    var all := hits + [h];
    assert all[|hits|] == h;
    assert forall i :: 0 <= i < |hits| ==> all[i] == hits[i];
  }

  /** Every catalog that ships an add-on is in one place of its entries, and no other is. */
  lemma EachShipperOnce(catalogs: seq<Catalog>, installed: map<string, Installed>, n: string, catalog: string)
    requires IsRegistry(catalogs)
    ensures var hits := ShippedBy(catalogs);
            AllStand(Named(Resolution(hits, installed), n))[catalog] == if Ships(hits, n, catalog) then 1 else 0
  {
    hide ShippedBy, Resolution, AllStand, Named, Shippers, Ships, ShippedOnce, IsRegistry;
    RegistryShipsOnce(catalogs);
    ResolutionConserves(ShippedBy(catalogs), installed, n);
    ShippersOnce(ShippedBy(catalogs), n, catalog);
  }

  // ---------------------------------------------------------------- versions, keys, primaries

  lemma EntryKeepsVersion(hits: seq<Hit>, n: string, v: string, isVariant: bool)
    requires At(hits, n, v) != []
    ensures VersionOf(EntryOf(At(hits, n, v), isVariant).manifest) == v
    ensures EntryOf(At(hits, n, v), isVariant).name == n && EntryOf(At(hits, n, v), isVariant).isVariant == isVariant
    ensures EntryOf(At(hits, n, v), isVariant).key ==
            if isVariant then n + "@" + EntryOf(At(hits, n, v), isVariant).catalog else n
    ensures At(hits, n, v)[0] in hits
  {
    AtIs(hits, n, v);
    HasFirst(At(hits, n, v));
  }

  /** The manifests state the same version; one that is empty counts as none, and none as unknown. */
  ghost predicate SameVersion(a: Manifest, b: Manifest) {
    || a.version == b.version
    || (a.version in {None, Some(""), Some("unknown")} && b.version in {None, Some(""), Some("unknown")})
  }

  lemma VersionsTell(a: Manifest, b: Manifest)
    ensures VersionOf(a) == VersionOf(b) <==> SameVersion(a, b)
  {
  }

  /** The entries of an add-on: one for each version it is shipped in, of which only the first is
      no variant. */
  lemma EntriesDiffer(hits: seq<Hit>, installed: map<string, Installed>, n: string)
    ensures var entries := Named(Resolution(hits, installed), n);
            && (forall j, k :: 0 <= j < k < |entries| ==> !SameVersion(entries[j].manifest, entries[k].manifest))
            && (forall h :: h in hits && h.addon == n ==>
                  exists k :: 0 <= k < |entries| && SameVersion(entries[k].manifest, h.manifest))
            && (forall k :: 0 <= k < |entries| ==> (entries[k].isVariant <==> k > 0))
            && (n in Names(hits) <==> entries != [])
  {
    hide Resolution, Named, Listing, At, Versions, EntryOf, VersionOf, Names, SameVersion;
    ResolvedByName(hits, installed, n);
    var entries, order := EntriesOf(hits, n, installed), Listing(hits, n, installed);
    ListingIsDistinct(hits, n, installed);
    forall k | 0 <= k < |entries|
      ensures VersionOf(entries[k].manifest) == order[k] && entries[k].isVariant == (k > 0)
    {
      EntryKeepsVersion(hits, n, order[k], k != 0);
    }
    forall j, k | 0 <= j < k < |entries|
      ensures !SameVersion(entries[j].manifest, entries[k].manifest)
    {
      VersionsTell(entries[j].manifest, entries[k].manifest);
    }
    forall h | h in hits && h.addon == n
      ensures exists k :: 0 <= k < |entries| && SameVersion(entries[k].manifest, h.manifest)
    {
      InAt(hits, n, h);
      var k :| 0 <= k < |order| && order[k] == Version(h);
      VersionsTell(entries[k].manifest, h.manifest);
    }
    if n !in Names(hits) {
      UnnamedHasNoEntries(hits, n, installed);
    } else {
      NamedHasEntries(hits, n, installed);
    }
  }

  lemma NamedHasEntries(hits: seq<Hit>, n: string, installed: map<string, Installed>)
    requires n in Names(hits)
    ensures Listing(hits, n, installed) != []
  {
    hide Versions, Promoted, PrimaryIndex;
    NamesAre(hits, n);
    var i :| 0 <= i < |hits| && hits[i].addon == n;
    AtIs(hits, n, Version(hits[i]));
    assert hits[i] in At(hits, n, Version(hits[i]));
    assert Version(hits[i]) in Versions(hits, n);
  }

  lemma InAt(hits: seq<Hit>, n: string, h: Hit)
    requires h in hits && h.addon == n
    ensures h in At(hits, n, Version(h)) && Version(h) in Versions(hits, n)
  {
    AtIs(hits, n, Version(h));
  }

  ghost predicate Offers(hits: seq<Hit>, n: string, v: string, catalog: string) {
    exists h :: h in hits && h.addon == n && Version(h) == v && h.catalog == catalog
  }

  lemma OffersIsNamed(hits: seq<Hit>, n: string, v: string, catalog: string)
    ensures Offers(hits, n, v, catalog) <==> catalog in CatalogNames(At(hits, n, v))
  {
    var at := At(hits, n, v);
    AtIs(hits, n, v);
    if Offers(hits, n, v, catalog) {
      var h :| h in hits && h.addon == n && Version(h) == v && h.catalog == catalog;
      assert h in at;
      var i :| 0 <= i < |at| && at[i] == h;
      assert CatalogNames(at)[i] == catalog;
    }
    if catalog in CatalogNames(at) {
      var i :| 0 <= i < |at| && CatalogNames(at)[i] == catalog;
      assert at[i] in hits;
    }
  }

  lemma {:induction false} IndexOfOffers(hits: seq<Hit>, n: string, versions: seq<string>, catalog: string, from: nat)
    requires exists k :: from <= k < |versions| && Offers(hits, n, versions[k], catalog)
    ensures var i := IndexOf(hits, n, versions, catalog, from); i < |versions| && Offers(hits, n, versions[i], catalog)
    decreases |versions| - from
  {
    hide At, Offers, CatalogNames;
    OffersIsNamed(hits, n, versions[from], catalog);
    if !Offers(hits, n, versions[from], catalog) {
      IndexOfOffers(hits, n, versions, catalog, from + 1);
    }
  }

  /** The catalog an add-on was installed from, if it still ships it, is one that the first entry
      stands for. */
  lemma InstalledCatalogIsFirst(hits: seq<Hit>, installed: map<string, Installed>, n: string, h: Hit)
    requires n in installed && h in hits && h.addon == n && h.catalog == installed[n].catalog
    ensures Listing(hits, n, installed) != []
    ensures Offers(hits, n, Listing(hits, n, installed)[0], h.catalog)
  {
    hide At, Versions, CatalogNames, IndexOf;
    InAt(hits, n, h);
    var versions := Versions(hits, n);
    var k :| 0 <= k < |versions| && versions[k] == Version(h);
    assert Offers(hits, n, versions[k], h.catalog);
    hide Offers;
    IndexOfOffers(hits, n, versions, h.catalog, 0);
  }

  lemma InstalledCatalogIsPrimary(hits: seq<Hit>, installed: map<string, Installed>, n: string)
    requires n in installed && installed[n].catalog in Shippers(hits, n)
    ensures var entries := Named(Resolution(hits, installed), n);
            entries != [] && installed[n].catalog in Stands(entries[0]) && !entries[0].isVariant
  {
    hide Resolution, Named, Listing, At, Versions, EntryOf, Names, Stands, Shippers, CatalogNames, Offers;
    var h := ShipperOf(hits, n, installed[n].catalog);
    InstalledCatalogIsFirst(hits, installed, n, h);
    var v := Listing(hits, n, installed)[0];
    OffersIsNamed(hits, n, v, h.catalog);
    ResolvedByName(hits, installed, n);
    assert At(hits, n, v) != [];
    EntryStands(At(hits, n, v), false);
    EntryKeepsVersion(hits, n, v, false);
  }

  lemma {:induction false} ShipperOf(hits: seq<Hit>, n: string, catalog: string) returns (h: Hit)
    requires catalog in Shippers(hits, n)
    ensures h in hits && h.addon == n && h.catalog == catalog
  {
    h := Last(hits);
    if h.addon != n || h.catalog != catalog {
      h := ShipperOf(Init(hits), n, catalog);
    }
  }

  // ---------------------------------------------------------------- which catalog an entry is from

  /** What is shipped: the add-ons of the enabled catalogs, and of no other. */
  lemma {:induction false} ShippedIsEnabled(catalogs: seq<Catalog>, h: Hit)
    ensures h in ShippedBy(catalogs) <==>
              exists c :: c in catalogs && c.enabled && c.name == h.catalog && (h.addon, h.manifest) in c.addons
  {
    if catalogs != [] {
      var last := Last(catalogs);
      ShippedIsEnabled(Init(catalogs), h);
      assert catalogs == Init(catalogs) + [last];
      if c :| c in catalogs && c.enabled && c.name == h.catalog && (h.addon, h.manifest) in c.addons {
        if c == last {
          var i :| 0 <= i < |last.addons| && last.addons[i] == (h.addon, h.manifest);
          assert HitsOf(last)[i] == h;
        }
      }
      if h in HitsOf(last) {
        var i :| 0 <= i < |HitsOf(last)| && HitsOf(last)[i] == h;
        assert last.addons[i] == (h.addon, h.manifest);
      }
    }
  }

  /** ... those of an earlier catalog first. */
  lemma {:induction false} ShippedInOrder(a: seq<Catalog>, b: seq<Catalog>)
    ensures ShippedBy(a + b) == ShippedBy(a) + ShippedBy(b)
  {
    hide HitsOf;
    if b == [] {
      assert a + b == a;
    } else {
      ShippedInOrder(a, Init(b));
      assert Init(a + b) == a + Init(b);
    }
  }

  ghost predicate IsFirstHit(hits: seq<Hit>, n: string, v: string, i: int) {
    && 0 <= i < |hits| && hits[i].addon == n && Version(hits[i]) == v
    && forall j :: 0 <= j < i ==> hits[j].addon != n || Version(hits[j]) != v
  }

  lemma {:induction false} FirstAt(hits: seq<Hit>, n: string, v: string)
    requires At(hits, n, v) != []
    ensures exists i :: IsFirstHit(hits, n, v, i) && At(hits, n, v)[0] == hits[i]
  {
    var init := Init(hits);
    if At(init, n, v) != [] {
      FirstAt(init, n, v);
      var i :| IsFirstHit(init, n, v, i) && At(init, n, v)[0] == init[i];
      assert IsFirstHit(hits, n, v, i);
    } else {
      AtIs(init, n, v);
      assert forall j :: 0 <= j < |init| ==> init[j] == hits[j] && init[j] in init;
      assert IsFirstHit(hits, n, v, |hits| - 1);
    }
  }

  /** Every entry is what the first catalog of the registry that ships this version has. */
  lemma EntryIsFirstHit(hits: seq<Hit>, installed: map<string, Installed>, n: string, k: nat)
    requires k < |Named(Resolution(hits, installed), n)|
    ensures var e := Named(Resolution(hits, installed), n)[k];
            exists i :: && 0 <= i < |hits| && hits[i].addon == n && e.catalog == hits[i].catalog && e.manifest == hits[i].manifest
                        && forall j :: 0 <= j < i && hits[j].addon == n ==> !SameVersion(hits[j].manifest, e.manifest)
  {
    hide Resolution, Named, Listing, At, Versions, Names, VersionOf;
    ResolvedByName(hits, installed, n);
    var v := Listing(hits, n, installed)[k];
    EntryKeepsVersion(hits, n, v, k != 0);
    FirstAt(hits, n, v);
    var e := Named(Resolution(hits, installed), n)[k];
    forall j | 0 <= j < |hits|
      ensures VersionOf(hits[j].manifest) == VersionOf(e.manifest) <==> SameVersion(hits[j].manifest, e.manifest)
    {
      VersionsTell(hits[j].manifest, e.manifest);
    }
  }

  lemma NoVersionNoHit(hits: seq<Hit>, n: string)
    requires Versions(hits, n) == []
    ensures forall j :: 0 <= j < |hits| ==> hits[j].addon != n
  {
    hide Versions, At;
    forall j | 0 <= j < |hits|
      ensures hits[j].addon != n
    {
      if hits[j].addon == n {
        InAt(hits, n, hits[j]);
      }
    }
  }

  lemma {:induction false} FirstVersion(hits: seq<Hit>, n: string)
    requires Versions(hits, n) != []
    ensures exists i :: IsFirstNamed(hits, n, i) && Versions(hits, n)[0] == Version(hits[i])
  {
    hide Version, At;
    var init := Init(hits);
    if Versions(init, n) != [] {
      FirstVersion(init, n);
      var i :| IsFirstNamed(init, n, i) && Versions(init, n)[0] == Version(init[i]);
      assert IsFirstNamed(hits, n, i);
    } else {
      NoVersionNoHit(init, n);
      assert forall j :: 0 <= j < |init| ==> hits[j] == init[j];
      assert IsFirstNamed(hits, n, |hits| - 1);
    }
  }

  ghost predicate IsFirstNamed(hits: seq<Hit>, n: string, i: int) {
    0 <= i < |hits| && hits[i].addon == n && forall j :: 0 <= j < i ==> hits[j].addon != n
  }

  lemma {:induction false} IndexOfNone(hits: seq<Hit>, n: string, versions: seq<string>, catalog: string, from: nat)
    requires forall k :: 0 <= k < |versions| ==> !Offers(hits, n, versions[k], catalog)
    ensures IndexOf(hits, n, versions, catalog, from) == 0
    decreases |versions| - from
  {
    hide At, Offers, CatalogNames;
    if from < |versions| {
      OffersIsNamed(hits, n, versions[from], catalog);
      IndexOfNone(hits, n, versions, catalog, from + 1);
    }
  }

  lemma ListingByRegistry(hits: seq<Hit>, installed: map<string, Installed>, n: string)
    requires Versions(hits, n) != [] && (n in installed ==> !Ships(hits, n, installed[n].catalog))
    ensures Listing(hits, n, installed) != [] && Listing(hits, n, installed)[0] == Versions(hits, n)[0]
  {
    hide At, Versions, IndexOf, CatalogNames;
    var versions := Versions(hits, n);
    if n in installed {
      forall k | 0 <= k < |versions|
        ensures !Offers(hits, n, versions[k], installed[n].catalog)
      {
      }
      IndexOfNone(hits, n, versions, installed[n].catalog, 0);
    }
  }

  lemma FirstOfVersion(hits: seq<Hit>, n: string, i: int)
    requires IsFirstNamed(hits, n, i)
    ensures forall j :: IsFirstHit(hits, n, Version(hits[i]), j) ==> j == i
  {
  }

  /** The first entry of an add-on that is not installed, or whose catalog does not ship it any
      more, is what the first catalog that ships it has. */
  lemma FirstEntryByRegistry(hits: seq<Hit>, installed: map<string, Installed>, n: string)
    requires n in Names(hits) && (n in installed ==> !Ships(hits, n, installed[n].catalog))
    ensures var entries := Named(Resolution(hits, installed), n);
            && entries != []
            && exists i :: IsFirstNamed(hits, n, i) && entries[0].catalog == hits[i].catalog && entries[0].manifest == hits[i].manifest
  {
    hide Resolution, Named, At, Versions, Listing, Names, Version, VersionOf, Ships;
    ResolvedByName(hits, installed, n);
    NamedHasEntries(hits, n, installed);
    var order := Listing(hits, n, installed);
    assert order[0] in order;
    ListingByRegistry(hits, installed, n);
    FirstVersion(hits, n);
    var i :| 0 <= i < |hits| && IsFirstNamed(hits, n, i) && order[0] == Version(hits[i]);
    FirstOfVersion(hits, n, i);
    FirstAt(hits, n, order[0]);
  }

  // ---------------------------------------------------------------- keys

  ghost predicate DistinctKeys(entries: seq<Resolved>) {
    forall i, j :: 0 <= i < j < |entries| ==> entries[i].key != entries[j].key
  }

  /** An add-on name with no `@`, and a key made of it. */
  ghost predicate IsKeyed(e: Resolved) {
    '@' !in e.name && e.key == if e.isVariant then e.name + "@" + e.catalog else e.name
  }

  lemma KeysTell(a: Resolved, b: Resolved)
    requires IsKeyed(a) && IsKeyed(b) && a.key == b.key
    ensures a.name == b.name && a.isVariant == b.isVariant && (a.isVariant ==> a.catalog == b.catalog)
  {
    if a.isVariant {
      assert a.key == a.name + ['@'] + a.catalog;
      PartitionUnique(a.key, '@', a.name, a.catalog);
    } else {
      PartitionNone(a.key, '@');
    }
    if b.isVariant {
      assert b.key == b.name + ['@'] + b.catalog;
      PartitionUnique(b.key, '@', b.name, b.catalog);
    } else {
      PartitionNone(b.key, '@');
    }
  }

  lemma FirstCatalogsDiffer(hits: seq<Hit>, n: string, v: string, w: string)
    requires ShippedOnce(hits) && v != w && At(hits, n, v) != [] && At(hits, n, w) != []
    ensures At(hits, n, v)[0].catalog != At(hits, n, w)[0].catalog
  {
    var g, h := At(hits, n, v)[0], At(hits, n, w)[0];
    AtIs(hits, n, v);
    AtIs(hits, n, w);
    assert g in At(hits, n, v) && h in At(hits, n, w);
    var i :| 0 <= i < |hits| && hits[i] == g;
    var j :| 0 <= j < |hits| && hits[j] == h;
    assert i != j;
  }

  lemma EntriesHaveKeys(hits: seq<Hit>, n: string, installed: map<string, Installed>)
    requires ShippedOnce(hits) && '@' !in n
    ensures var entries := EntriesOf(hits, n, installed);
            DistinctKeys(entries) && forall k :: 0 <= k < |entries| ==> IsKeyed(entries[k]) && entries[k].name == n
  {
    hide Listing, At, Versions, ShippedOnce, Version;
    var entries, order := EntriesOf(hits, n, installed), Listing(hits, n, installed);
    ListingIsDistinct(hits, n, installed);
    forall k | 0 <= k < |entries|
      ensures IsKeyed(entries[k]) && entries[k].name == n && entries[k].isVariant == (k != 0)
      ensures entries[k].catalog == At(hits, n, order[k])[0].catalog
    {
      EntryKeepsVersion(hits, n, order[k], k != 0);
    }
    hide EntryOf;
    forall j, k | 0 <= j < k < |entries|
      ensures entries[j].key != entries[k].key
    {
      FirstCatalogsDiffer(hits, n, order[j], order[k]);
      if entries[j].key == entries[k].key {
        KeysTell(entries[j], entries[k]);
      }
    }
  }

  lemma {:induction false} KeysOfEntries(hits: seq<Hit>, names: seq<string>, installed: map<string, Installed>)
    requires ShippedOnce(hits) && Distinct(names) && forall i :: 0 <= i < |names| ==> '@' !in names[i]
    ensures var entries := Entries(hits, names, installed);
            DistinctKeys(entries) && forall k :: 0 <= k < |entries| ==> IsKeyed(entries[k]) && entries[k].name in names
  {
    hide EntriesOf, ShippedOnce, IsKeyed;
    if names != [] {
      var last := Last(names);
      KeysOfEntries(hits, Init(names), installed);
      EntriesHaveKeys(hits, last, installed);
      var a, b := Entries(hits, Init(names), installed), EntriesOf(hits, last, installed);
      forall i, j | 0 <= i < |a| && 0 <= j < |b|
        ensures a[i].key != b[j].key
      {
        if a[i].key == b[j].key {
          KeysTell(a[i], b[j]);
        }
      }
    }
  }

  /** A key names one entry, if no add-on name has an `@`. */
  lemma KeysAreDistinct(catalogs: seq<Catalog>, installed: map<string, Installed>)
    requires IsRegistry(catalogs)
    requires forall n :: n in Names(ShippedBy(catalogs)) ==> '@' !in n
    ensures DistinctKeys(Resolution(ShippedBy(catalogs), installed))
  {
    hide ShippedBy, Names, DistinctKeys;
    RegistryShipsOnce(catalogs);
    KeysOfEntries(ShippedBy(catalogs), Names(ShippedBy(catalogs)), installed);
  }

  // ---------------------------------------------------------------- updates

  /** `update_available`. */
  predicate UpdateAvailable(installed: Installed, offered: Option<string>) {
    && installed.managed
    && offered.Some?
    && var newer := SemVer.IsNewer(offered.value, installed.version);
       if newer.Some? then newer.value else installed.version != offered.value
  }

  predicate Counts(e: Resolved, installed: map<string, Installed>) {
    && e.name in installed
    && (e.isVariant ==> installed[e.name].catalog == e.catalog)
    && UpdateAvailable(installed[e.name], e.manifest.version)
  }

  /** `str(version)`, which is only asked for a version that is there. */
  function UpdateOf(e: Resolved, i: Installed): Update {
    Update(e.name, i.version, if e.manifest.version.Some? then e.manifest.version.value else "None", e.catalog)
  }

  function Updates(entries: seq<Resolved>, installed: map<string, Installed>): seq<Update> {
    if entries == [] then []
    else
      var e := Last(entries);
      Updates(Init(entries), installed) + if Counts(e, installed) then [UpdateOf(e, installed[e.name])] else []
  }

  /** `outdated_addons`. */
  method OutdatedAddons(catalogs: seq<Catalog>, installed: map<string, Installed>) returns (found: seq<Update>)
    ensures found == Updates(Resolution(ShippedBy(catalogs), installed), installed)
    ensures IsRegistry(catalogs) ==> OnePerName(found)
    ensures IsRegistry(catalogs) ==>
              forall u :: u in found <==> IsOffered(Resolution(ShippedBy(catalogs), installed), installed, u)
  {
    hide UpdateAvailable, Resolution, ShippedBy, IsRegistry, IsOffered, OnePerName;
    var entries := ResolveCatalogAddons(catalogs, installed);
    found := [];
    for i := 0 to |entries|
      invariant found == Updates(entries[..i], installed)
    {
      assert Init(entries[..i + 1]) == entries[..i];
      var e := entries[i];
      if e.name !in installed || (e.isVariant && installed[e.name].catalog != e.catalog) {
        continue;
      }
      if UpdateAvailable(installed[e.name], e.manifest.version) {
        found := found + [UpdateOf(e, installed[e.name])];
      }
    }
    assert entries[..|entries|] == entries;
    if IsRegistry(catalogs) {
      ReportedOnce(catalogs, installed);
    }
  }

  /** No variant comes from the catalog the add-on was installed from. */
  lemma NoVariantIsInstalled(hits: seq<Hit>, installed: map<string, Installed>, n: string, k: nat)
    requires ShippedOnce(hits) && n in installed && 0 < k < |EntriesOf(hits, n, installed)|
    ensures EntriesOf(hits, n, installed)[k].catalog != installed[n].catalog
  {
    hide At, Listing, Versions, CatalogNames;
    var order := Listing(hits, n, installed);
    ListingIsDistinct(hits, n, installed);
    var h := At(hits, n, order[k])[0];
    AtIs(hits, n, order[k]);
    assert h in At(hits, n, order[k]);
    if h.catalog == installed[n].catalog {
      InstalledCatalogIsFirst(hits, installed, n, h);
    }
  }

  lemma {:induction false} OnlyFirstCounts(entries: seq<Resolved>, installed: map<string, Installed>)
    requires forall k :: 0 < k < |entries| ==> !Counts(entries[k], installed)
    ensures Updates(entries, installed) ==
            if entries != [] && Counts(entries[0], installed) then [UpdateOf(entries[0], installed[entries[0].name])] else []
  {
    hide Counts;
    if |entries| > 1 {
      OnlyFirstCounts(Init(entries), installed);
    } else if |entries| == 1 {
      assert Updates(Init(entries), installed) == [];
    }
  }

  lemma {:induction false} UpdatesAppend(a: seq<Resolved>, b: seq<Resolved>, installed: map<string, Installed>)
    ensures Updates(a + b, installed) == Updates(a, installed) + Updates(b, installed)
  {
    hide Counts;
    if b == [] {
      assert a + b == a;
    } else {
      UpdatesAppend(a, Init(b), installed);
      assert Init(a + b) == a + Init(b);
    }
  }

  /** The update an add-on's first entry offers, if any. */
  function UpdateFor(hits: seq<Hit>, n: string, installed: map<string, Installed>): (u: seq<Update>)
    ensures |u| <= 1
  {
    var entries := EntriesOf(hits, n, installed);
    if entries != [] && n in installed && UpdateAvailable(installed[n], entries[0].manifest.version) then
      [UpdateOf(entries[0], installed[n])]
    else []
  }

  lemma UpdatesOfOne(hits: seq<Hit>, n: string, installed: map<string, Installed>)
    requires ShippedOnce(hits)
    ensures Updates(EntriesOf(hits, n, installed), installed) == UpdateFor(hits, n, installed)
    ensures forall u :: u in UpdateFor(hits, n, installed) ==> u.name == n
  {
    hide ShippedOnce, Updates, EntriesOf, UpdateAvailable, Listing, At;
    var entries, order := EntriesOf(hits, n, installed), Listing(hits, n, installed);
    forall k | 0 <= k < |entries|
      ensures entries[k].name == n && entries[k].isVariant == (k != 0)
    {
      EntryKeepsVersion(hits, n, order[k], k != 0);
    }
    hide EntryOf;
    if n in installed {
      forall k | 0 < k < |entries|
        ensures !Counts(entries[k], installed)
      {
        NoVariantIsInstalled(hits, installed, n, k);
      }
    }
    OnlyFirstCounts(entries, installed);
  }

  ghost predicate OnePerName(found: seq<Update>) {
    forall i, j :: 0 <= i < j < |found| ==> found[i].name != found[j].name
  }

  lemma AtMostOne(found: seq<Update>)
    requires |found| <= 1
    ensures forall u :: u in found <==> found == [u]
  {
  }

  lemma NamesApart(a: seq<Update>, b: seq<Update>, names: seq<string>, last: string)
    requires OnePerName(a) && |b| <= 1 && last !in names
    requires (forall u :: u in a ==> u.name in names) && forall u :: u in b ==> u.name == last
    ensures OnePerName(a + b) && forall u :: u in a + b <==> u in a || u in b
  {
    forall i | 0 <= i < |a|
      ensures a[i].name != last
    {
      assert a[i] in a;
    }
    if |b| == 1 {
      assert b[0] in b;
    }
  }

  lemma {:induction false} UpdatesOfEntries(hits: seq<Hit>, names: seq<string>, installed: map<string, Installed>)
    requires ShippedOnce(hits) && Distinct(names)
    ensures var found := Updates(Entries(hits, names, installed), installed);
            && OnePerName(found)
            && forall u :: u in found <==> u.name in names && UpdateFor(hits, u.name, installed) == [u]
  {
    hide ShippedOnce, EntriesOf, Updates, UpdateFor, OnePerName, Distinct;
    if names == [] {
      NoUpdates(installed);
    } else {
      var last := Last(names);
      InitIsDistinct(names);
      UpdatesOfEntries(hits, Init(names), installed);
      UpdatesOfOne(hits, last, installed);
      UpdatesAppend(Entries(hits, Init(names), installed), EntriesOf(hits, last, installed), installed);
      NamesApart(Updates(Entries(hits, Init(names), installed), installed), UpdateFor(hits, last, installed), Init(names), last);
      AtMostOne(UpdateFor(hits, last, installed));
    }
  }

  lemma NoUpdates(installed: map<string, Installed>)
    ensures Updates([], installed) == [] && OnePerName([])
  {
  }

  /** A higher version, if both are versions; another text, if one is not. */
  ghost predicate IsUpgrade(from: string, to: string) {
    var a, b := SemVer.Parse(from), SemVer.Parse(to);
    if a.Some? && b.Some? then SemVer.Lower(a.value, b.value) else from != to
  }

  lemma AvailableIsUpgrade(i: Installed, offered: string)
    ensures UpdateAvailable(i, Some(offered)) <==> i.managed && IsUpgrade(i.version, offered)
  {
    hide SemVer.Parse, SemVer.CompareVersions, SemVer.Lower;
    var a, b := SemVer.Parse(i.version), SemVer.Parse(offered);
    if a.Some? && b.Some? {
      SemVer.CompareIsPrecedence(b.value, a.value);
    }
  }

  /** What is to be reported: the add-on is installed and managed, and its entry that is no variant
      states a version that is an upgrade. */
  ghost predicate IsOffered(entries: seq<Resolved>, installed: map<string, Installed>, u: Update) {
    && u.name in installed && installed[u.name].managed && u.installed == installed[u.name].version
    && IsUpgrade(u.installed, u.available)
    && exists e :: e in entries && IsEntryOf(e, u)
  }

  ghost predicate IsEntryOf(e: Resolved, u: Update) {
    e.name == u.name && !e.isVariant && e.manifest.version == Some(u.available) && e.catalog == u.catalog
  }

  lemma {:induction false} NamedAre(entries: seq<Resolved>, n: string, e: Resolved)
    ensures e in Named(entries, n) <==> e in entries && e.name == n
  {
    if entries != [] {
      NamedAre(Init(entries), n, e);
      assert entries == Init(entries) + [Last(entries)];
    }
  }

  lemma FirstIsTheEntry(hits: seq<Hit>, installed: map<string, Installed>, n: string, e: Resolved)
    ensures e in Resolution(hits, installed) && e.name == n && !e.isVariant <==>
              EntriesOf(hits, n, installed) != [] && e == EntriesOf(hits, n, installed)[0]
  {
    hide Resolution, EntriesOf, Named, Names;
    EntriesDiffer(hits, installed, n);
    ResolvedByName(hits, installed, n);
    NamedAre(Resolution(hits, installed), n, e);
  }

  lemma UpdateForIsOffered(hits: seq<Hit>, installed: map<string, Installed>, u: Update)
    ensures UpdateFor(hits, u.name, installed) == [u] <==> IsOffered(Resolution(hits, installed), installed, u)
  {
    hide Resolution, EntriesOf, IsUpgrade, UpdateAvailable;
    var entries := EntriesOf(hits, u.name, installed);
    forall e
      ensures e in Resolution(hits, installed) && e.name == u.name && !e.isVariant <==> entries != [] && e == entries[0]
    {
      FirstIsTheEntry(hits, installed, u.name, e);
    }
    if u.name in installed {
      NoVersionNoUpdate(installed[u.name]);
      if entries != [] && entries[0].manifest.version.Some? {
        AvailableIsUpgrade(installed[u.name], entries[0].manifest.version.value);
      }
    }
  }

  lemma NoVersionNoUpdate(i: Installed)
    ensures !UpdateAvailable(i, None)
  {
  }

  /** An add-on is reported once, or not at all, and by the version its first entry offers. */
  lemma ReportedOnce(catalogs: seq<Catalog>, installed: map<string, Installed>)
    requires IsRegistry(catalogs)
    ensures var hits := ShippedBy(catalogs);
            var found := Updates(Resolution(hits, installed), installed);
            && OnePerName(found)
            && forall u :: u in found <==> IsOffered(Resolution(hits, installed), installed, u)
  {
    hide ShippedBy, Names, Updates, EntriesOf, Resolution, IsOffered, UpdateFor;
    var hits := ShippedBy(catalogs);
    RegistryShipsOnce(catalogs);
    UpdatesOfEntries(hits, Names(hits), installed);
    ResolutionIsEntries(hits, installed);
    forall u: Update
      ensures UpdateFor(hits, u.name, installed) == [u] <==> IsOffered(Resolution(hits, installed), installed, u)
      ensures UpdateFor(hits, u.name, installed) == [u] ==> u.name in Names(hits)
    {
      UpdateForIsOffered(hits, installed, u);
      UnnamedHasNoUpdate(hits, installed, u.name);
    }
  }

  lemma UnnamedHasNoUpdate(hits: seq<Hit>, installed: map<string, Installed>, n: string)
    ensures UpdateFor(hits, n, installed) != [] ==> n in Names(hits)
  {
    hide Names, EntriesOf;
    if n !in Names(hits) {
      UnnamedHasNoEntries(hits, n, installed);
    }
  }

  lemma ResolutionIsEntries(hits: seq<Hit>, installed: map<string, Installed>)
    ensures Resolution(hits, installed) == Entries(hits, Names(hits), installed)
  {
  }
}
