/** Reading and writing the dashboard document (`tiles.py`). */
module Tiles {
  import opened Text
  import opened WidgetIds
  import opened Wrappers

  // ---------------------------------------------------------------- documents

  /** A parsed YAML or JSON value; what is neither text, whole number nor container is `Other`. */
  datatype Raw =
    | Null
    | Text(text: string)
    | Number(number: int)
    | Other(shown: string, truthy: bool)
    | List(items: seq<Raw>)
    | Dict(entries: map<string, Raw>)

  type Fields = map<string, Raw>

  function Get(fields: Fields, key: string): Raw {
    if key in fields then fields[key] else Null
  }

  predicate IsTruthy(raw: Raw) {
    match raw
    case Null => false
    case Text(text) => text != ""
    case Number(number) => number != 0
    case Other(_, truthy) => truthy
    case List(items) => items != []
    case Dict(entries) => entries != map[]
  }

  /** `str(value)`; how anything but text is shown is a parameter. */
  function Shown(raw: Raw, show: Raw -> string): string {
    if raw.Text? then raw.text else show(raw)
  }

  /** `str(fields.get(key, ""))`. */
  function TextOf(fields: Fields, key: string, show: Raw -> string): string {
    if key in fields then Shown(fields[key], show) else ""
  }

  /** `str(value) if value else ""`. */
  function TruthyText(raw: Raw, show: Raw -> string): string {
    if IsTruthy(raw) then Shown(raw, show) else ""
  }

  // ---------------------------------------------------------------- tiles

  datatype Visibility = All | Admin

  datatype Size = S | M | L

  datatype Tile =
    | Link(name: string, href: string, description: string, icon: Option<string>, visibility: Visibility)
    | Widget(widget: string, id: string, title: string, size: Size, visibility: Visibility)

  datatype Group = Group(name: string, tiles: seq<Tile>)

  datatype Config = Config(version: int, groups: seq<Group>)

  predicate IsIdChar(c: char) {
    IsDigit(c) || 'A' <= c <= 'Z' || 'a' <= c <= 'z' || c == '_' || c == '-'
  }

  /** What an id is for: it fits a URL path. */
  predicate IsPathSafe(s: string) {
    1 <= |s| <= 40 && forall i :: 0 <= i < |s| ==> IsIdChar(s[i])
  }

  /** One to forty letters, digits, underscores and hyphens. */
  lemma PathSafeIds(s: string)
    ensures IsPathSafe(s) <==>
              0 < |s| <= 40 && forall c :: c in s ==> c in UPPER_CASE || c in LOWER_CASE || c in DECIMALS || c == '_' || c == '-'
  {
    forall c
      ensures IsIdChar(c) <==> c in UPPER_CASE || c in LOWER_CASE || c in DECIMALS || c == '_' || c == '-'
    {
      UpperAreListed(c);
      LowerAreListed(c);
      DecimalsAreListed(c);
    }
    hide IsIdChar, UPPER_CASE, LOWER_CASE, DECIMALS;
  }

  /** `^[A-Za-z0-9_-]{1,40}$`, where the end may come before one line feed. */
  predicate IsWidgetId(s: string) {
    IsPathSafe(if s != "" && s[|s| - 1] == '\n' then s[..|s| - 1] else s)
  }

  /** The pattern lets through the ids that fit a URL path, and each of them with a line feed at the
      end; so an id that passes fits if and only if it has no line feed. */
  lemma IdsThatPass(s: string)
    ensures IsWidgetId(s) <==> IsPathSafe(s) || (s != "" && s[|s| - 1] == '\n' && IsPathSafe(s[..|s| - 1]))
    ensures IsWidgetId(s) ==> (IsPathSafe(s) <==> '\n' !in s)
  {
    if s != "" && s[|s| - 1] == '\n' {
      assert '\n' in s && !IsIdChar(s[|s| - 1]);
    }
  }

  lemma LineFeedPasses()
    ensures IsWidgetId("a\n") && !IsPathSafe("a\n")
  {
    assert "a\n"[1] == '\n' && "a\n"[..1] == "a" && "a"[0] == 'a';
  }

  /** `_visibility_from_raw`: whatever is not understood restricts the tile. */
  function VisibilityFrom(raw: Raw): Visibility {
    if raw == Null || raw == Text("all") then All else Admin
  }

  /** `_widget_from_dict`: an absent visibility restricts a widget as well. */
  function WidgetFrom(fields: Fields, show: Raw -> string): Tile {
    var id, size, visibility := Get(fields, "id"), Get(fields, "size"), Get(fields, "visibility");
    Widget(TextOf(fields, "widget", show),
           if id.Text? && IsWidgetId(id.text) then id.text else "",
           TruthyText(Get(fields, "title"), show),
           if size == Text("l") then L else if size == Text("m") then M else S,
           if visibility == Null then Admin else VisibilityFrom(visibility))
  }

  function LinkFrom(fields: Fields, show: Raw -> string): Tile {
    var icon := Get(fields, "icon");
    Link(TextOf(fields, "name", show), TextOf(fields, "href", show), TextOf(fields, "description", show),
         if IsTruthy(icon) then Some(Shown(icon, show)) else None, VisibilityFrom(Get(fields, "visibility")))
  }

  function TileFrom(fields: Fields, show: Raw -> string): Tile {
    if Get(fields, "type") == Text("widget") then WidgetFrom(fields, show) else LinkFrom(fields, show)
  }

  /** The entries of a list that are mappings; anything but a list that is falsy is no list. */
  function Mappings(raw: Raw): seq<Fields> {
    if raw.List? then MappingsOf(raw.items) else []
  }

  function MappingsOf(items: seq<Raw>): seq<Fields> {
    if items == [] then []
    else MappingsOf(items[..|items| - 1])
         + if items[|items| - 1].Dict? then [items[|items| - 1].entries] else []
  }

  function TilesFrom(all: seq<Fields>, show: Raw -> string): seq<Tile> {
    seq(|all|, i requires 0 <= i < |all| => TileFrom(all[i], show))
  }

  function GroupFrom(fields: Fields, show: Raw -> string): Group {
    Group(TextOf(fields, "name", show), TilesFrom(Mappings(Get(fields, "tiles")), show))
  }

  function GroupsFrom(all: seq<Fields>, show: Raw -> string): seq<Group> {
    seq(|all|, i requires 0 <= i < |all| => GroupFrom(all[i], show))
  }

  ghost predicate Says(fields: Fields, key: string, text: string) {
    key in fields && fields[key] == Text(text)
  }

  ghost predicate IsAbsent(fields: Fields, key: string) {
    key in fields ==> fields[key] == Null
  }

  /** Everyone sees a link that says so or says nothing about it, and a widget only if it says so:
      whatever else is written restricts the tile. */
  lemma WhoSeesATile(fields: Fields, show: Raw -> string)
    ensures var tile := TileFrom(fields, show);
            && (tile.Widget? <==> Says(fields, "type", "widget"))
            && (tile.visibility == Admin <==>
                  !Says(fields, "visibility", "all") && (tile.Widget? || !IsAbsent(fields, "visibility")))
  {
  }

  /** What counts for nothing: no text, no number, no entries. */
  ghost predicate IsFalsy(raw: Raw) {
    || raw == Null || raw == Text("") || raw == Number(0) || raw == List([]) || raw == Dict(map[])
    || (raw.Other? && !raw.truthy)
  }

  /** What else is read of a tile: a size that is none of the three is the smallest, an id that is
      no text or does not pass is dropped, and a title or icon that is empty counts for none. */
  lemma TileIsRead(fields: Fields, show: Raw -> string)
    ensures match TileFrom(fields, show)
            case Widget(widget, id, title, size, _) =>
              && (size == L <==> Says(fields, "size", "l")) && (size == M <==> Says(fields, "size", "m"))
              && (if id != "" then Says(fields, "id", id) && IsWidgetId(id)
                  else forall text :: Says(fields, "id", text) ==> !IsWidgetId(text))
              && (forall text :: Says(fields, "widget", text) ==> widget == text)
              && (forall text :: Says(fields, "title", text) ==> title == text)
              && ("widget" !in fields ==> widget == "")
              && (IsFalsy(Get(fields, "title")) ==> title == "")
              && (!IsFalsy(Get(fields, "title")) && !fields["title"].Text? ==> title == show(fields["title"]))
            case Link(name, href, description, icon, _) =>
              && (forall text :: Says(fields, "name", text) ==> name == text) && ("name" !in fields ==> name == "")
              && (forall text :: Says(fields, "href", text) ==> href == text) && ("href" !in fields ==> href == "")
              && (forall text :: Says(fields, "description", text) ==> description == text)
              && ("description" !in fields ==> description == "")
              && (forall text :: Says(fields, "icon", text) ==> icon == if text == "" then None else Some(text))
              && (icon.None? <==> IsFalsy(Get(fields, "icon")))
              && (!IsFalsy(Get(fields, "icon")) && !fields["icon"].Text? ==> icon == Some(show(fields["icon"])))
  {
  }

  // ---------------------------------------------------------------- ids across groups

  function WidgetsIn(tiles: seq<Tile>): seq<Tile> {
    if tiles == [] then []
    else (if tiles[0].Widget? then [tiles[0]] else []) + WidgetsIn(tiles[1..])
  }

  function AllWidgets(groups: seq<Group>): (r: seq<Tile>)
    ensures forall i :: 0 <= i < |r| ==> r[i].Widget?
  {
    if groups == [] then [] else
      WidgetsInAreWidgets(groups[0].tiles);
      WidgetsIn(groups[0].tiles) + AllWidgets(groups[1..])
  }

  lemma {:induction false} WidgetsInAreWidgets(tiles: seq<Tile>)
    ensures forall i :: 0 <= i < |WidgetsIn(tiles)| ==> WidgetsIn(tiles)[i].Widget?
  {
    if tiles != [] {
      WidgetsInAreWidgets(tiles[1..]);
    }
  }

  function IdsOf(groups: seq<Group>): (r: seq<string>)
    ensures |r| == |AllWidgets(groups)|
  {
    seq(|AllWidgets(groups)|, i requires 0 <= i < |AllWidgets(groups)| => AllWidgets(groups)[i].id)
  }

  function TypesOf(groups: seq<Group>): (r: seq<string>)
    ensures |r| == |AllWidgets(groups)|
  {
    seq(|AllWidgets(groups)|, i requires 0 <= i < |AllWidgets(groups)| => AllWidgets(groups)[i].widget)
  }

  /** The tiles with the given ids put into the widgets, in order. */
  function PutIds(tiles: seq<Tile>, ids: seq<string>): (r: seq<Tile>)
    requires |ids| == |WidgetsIn(tiles)|
    ensures |r| == |tiles|
  {
    if tiles == [] then []
    else if tiles[0].Widget? then [tiles[0].(id := ids[0])] + PutIds(tiles[1..], ids[1..])
    else [tiles[0]] + PutIds(tiles[1..], ids)
  }

  function PutAllIds(groups: seq<Group>, ids: seq<string>): (r: seq<Group>)
    requires |ids| == |AllWidgets(groups)|
    ensures |r| == |groups|
  {
    if groups == [] then []
    else
      var n := |WidgetsIn(groups[0].tiles)|;
      [groups[0].(tiles := PutIds(groups[0].tiles, ids[..n]))] + PutAllIds(groups[1..], ids[n..])
  }

  /** `for entry in value or []` does not raise. */
  predicate CanIterate(raw: Raw) {
    raw.Number? || raw.Other? ==> !IsTruthy(raw)
  }

  predicate CanLoad(fields: Fields) {
    CanIterate(Get(fields, "groups")) && forall g :: g in Mappings(Get(fields, "groups")) ==> CanIterate(Get(g, "tiles"))
  }

  /** `int(value)`, None where it raises: of it only that it keeps whole numbers is used. */
  type ToInt = Raw -> Option<int>

  ghost predicate KeepsNumbers(number: ToInt) {
    forall n :: number(Number(n)) == Some(n)
  }

  function VersionFrom(fields: Fields, number: ToInt): Option<int> {
    if "version" in fields then number(fields["version"]) else Some(1)
  }

  function ParsedGroups(fields: Fields, show: Raw -> string): seq<Group> {
    GroupsFrom(Mappings(Get(fields, "groups")), show)
  }

  /** The derived ids of the widget types in a document are apart, as many as can be tried. */
  ghost predicate IdsApart(digest: Digest, groups: seq<Group>) {
    AllApart(digest, TypesOf(groups), 2 * |AllWidgets(groups)|)
  }

  /** `_config_from_dict`; None for a document that raises. */
  function ConfigFrom(fields: Fields, digest: Digest, show: Raw -> string, number: ToInt): Option<Config>
    requires IdsApart(digest, ParsedGroups(fields, show))
  {
    var groups := ParsedGroups(fields, show);
    var ids := Assigned(digest, TypesOf(groups), IdsOf(groups));
    var version := VersionFrom(fields, number);
    if !CanLoad(fields) || version.None? then None else Some(Config(version.value, PutAllIds(groups, ids)))
  }

  // ---------------------------------------------------------------- writing

  function VisibilityText(v: Visibility): Raw {
    Text(if v.All? then "all" else "admin")
  }

  /** `_tile_to_dict`. */
  function TileTo(tile: Tile): Fields {
    match tile
    case Widget(widget, id, title, size, visibility) =>
      var fields := map["type" := Text("widget"), "widget" := Text(widget), "id" := Text(id)];
      var titled := if title != "" then fields["title" := Text(title)] else fields;
      titled["size" := Text(if size.S? then "s" else if size.M? then "m" else "l")]["visibility" := VisibilityText(visibility)]
    case Link(name, href, description, icon, visibility) =>
      var fields := map["name" := Text(name), "href" := Text(href), "description" := Text(description)];
      var iconed := if icon.Some? && icon.value != "" then fields["icon" := Text(icon.value)] else fields;
      iconed["visibility" := VisibilityText(visibility)]
  }

  function GroupTo(group: Group): Fields {
    map["name" := Text(group.name),
        "tiles" := List(seq(|group.tiles|, i requires 0 <= i < |group.tiles| => Dict(TileTo(group.tiles[i]))))]
  }

  /** `_config_to_dict`. */
  function ConfigTo(config: Config): Fields {
    map["version" := Number(config.version),
        "groups" := List(seq(|config.groups|, i requires 0 <= i < |config.groups| => Dict(GroupTo(config.groups[i]))))]
  }

  /** What the written form says of a tile. */
  lemma WrittenForm(tile: Tile)
    ensures var fields := TileTo(tile);
            && Says(fields, "visibility", if tile.visibility.All? then "all" else "admin")
            && (tile.Widget? <==> Says(fields, "type", "widget"))
            && (tile.Widget? ==>
                  && Says(fields, "size", if tile.size.L? then "l" else if tile.size.M? then "m" else "s")
                  && Says(fields, "id", tile.id) && Says(fields, "widget", tile.widget))
            && (tile.Link? ==>
                  && Says(fields, "name", tile.name) && Says(fields, "href", tile.href)
                  && Says(fields, "description", tile.description))
  {
  }

  ghost predicate IsScalar(fields: Fields, key: string) {
    key in fields && match fields[key]
                     case Number(n) => n != 0
                     case Other(_, truthy) => truthy
                     case _ => false
  }

  /** A document is loaded if and only if its version, if it has one, is a number, and neither its
      groups nor the tiles of one of them are a number or the like; without a version it has 1. */
  lemma LoadsExactly(fields: Fields, digest: Digest, show: Raw -> string, number: ToInt)
    requires IdsApart(digest, ParsedGroups(fields, show))
    ensures var loaded := ConfigFrom(fields, digest, show, number);
            && (loaded.Some? <==>
                  && ("version" in fields ==> number(fields["version"]).Some?) && !IsScalar(fields, "groups")
                  && forall g :: g in Mappings(Get(fields, "groups")) ==> !IsScalar(g, "tiles"))
            && (loaded.Some? ==> if "version" in fields then Some(loaded.value.version) == number(fields["version"])
                                 else loaded.value.version == 1)
  {
    hide Assigned, Apart, Mappings, ParsedGroups;
    forall g: Fields, key: string
      ensures CanIterate(Get(g, key)) <==> !IsScalar(g, key)
    {
    }
  }

  // ---------------------------------------------------------------- there and back

  /** What survives writing and reading as it is: an icon is not empty, an id passes the pattern. */
  ghost predicate IsPlainTile(tile: Tile) {
    match tile
    case Link(_, _, _, icon, _) => icon.Some? ==> icon.value != ""
    case Widget(_, id, _, _, _) => id == "" || IsWidgetId(id)
  }

  lemma TileReadsBack(tile: Tile, show: Raw -> string)
    ensures TileFrom(TileTo(tile), show) == tile <==> IsPlainTile(tile)
  {
  }

  lemma {:induction false} MappingsReadBack(all: seq<Fields>)
    ensures MappingsOf(seq(|all|, i requires 0 <= i < |all| => Dict(all[i]))) == all
  {
    var items := seq(|all|, i requires 0 <= i < |all| => Dict(all[i]));
    if all != [] {
      var before := all[..|all| - 1];
      MappingsReadBack(before);
      assert items[..|items| - 1] == seq(|before|, i requires 0 <= i < |before| => Dict(before[i]));
    }
  }

  ghost predicate IsPlainGroup(group: Group) {
    forall i :: 0 <= i < |group.tiles| ==> IsPlainTile(group.tiles[i])
  }

  lemma GroupReadsBack(group: Group, show: Raw -> string)
    requires IsPlainGroup(group)
    ensures GroupFrom(GroupTo(group), show) == group
  {
    hide TileTo, TileFrom, IsPlainTile;
    var all := seq(|group.tiles|, i requires 0 <= i < |group.tiles| => TileTo(group.tiles[i]));
    MappingsReadBack(all);
    assert Get(GroupTo(group), "tiles") == List(seq(|all|, i requires 0 <= i < |all| => Dict(all[i])));
    forall i | 0 <= i < |group.tiles|
      ensures TileFrom(all[i], show) == group.tiles[i]
    {
      TileReadsBack(group.tiles[i], show);
    }
  }

  lemma GroupsReadBack(config: Config, show: Raw -> string)
    requires forall i :: 0 <= i < |config.groups| ==> IsPlainGroup(config.groups[i])
    ensures GroupsFrom(Mappings(Get(ConfigTo(config), "groups")), show) == config.groups
  {
    hide GroupTo, GroupFrom, IsPlainGroup;
    var all := seq(|config.groups|, i requires 0 <= i < |config.groups| => GroupTo(config.groups[i]));
    MappingsReadBack(all);
    assert Get(ConfigTo(config), "groups") == List(seq(|all|, i requires 0 <= i < |all| => Dict(all[i])));
    forall i | 0 <= i < |config.groups|
      ensures GroupFrom(all[i], show) == config.groups[i]
    {
      GroupReadsBack(config.groups[i], show);
    }
  }

  lemma {:induction false} PutOwnIds(tiles: seq<Tile>, ids: seq<string>)
    requires |ids| == |WidgetsIn(tiles)| && forall i :: 0 <= i < |ids| ==> WidgetsIn(tiles)[i].Widget? && ids[i] == WidgetsIn(tiles)[i].id
    ensures PutIds(tiles, ids) == tiles
  {
    if tiles != [] {
      var rest := if tiles[0].Widget? then ids[1..] else ids;
      forall i | 0 <= i < |rest|
        ensures WidgetsIn(tiles[1..])[i].Widget? && rest[i] == WidgetsIn(tiles[1..])[i].id
      {
        assert WidgetsIn(tiles[1..])[i] == WidgetsIn(tiles)[if tiles[0].Widget? then i + 1 else i];
      }
      PutOwnIds(tiles[1..], rest);
    }
  }

  lemma {:induction false} PutOwnAllIds(groups: seq<Group>)
    ensures PutAllIds(groups, IdsOf(groups)) == groups
  {
    if groups != [] {
      var n, ids := |WidgetsIn(groups[0].tiles)|, IdsOf(groups);
      WidgetsInAreWidgets(groups[0].tiles);
      PutOwnIds(groups[0].tiles, ids[..n]);
      assert ids[n..] == IdsOf(groups[1..]);
      PutOwnAllIds(groups[1..]);
    }
  }

  ghost predicate HasUniqueIds(groups: seq<Group>) {
    var ids := IdsOf(groups);
    (forall i, j :: 0 <= i < j < |ids| ==> ids[i] != ids[j]) && (forall k :: 0 <= k < |ids| ==> ids[k] != "")
  }

  ghost predicate IsLoaded(config: Config) {
    (forall i :: 0 <= i < |config.groups| ==> IsPlainGroup(config.groups[i])) && HasUniqueIds(config.groups)
  }

  /** A configuration that could have been loaded is written and read back as it is. */
  lemma ConfigReadsBack(config: Config, digest: Digest, show: Raw -> string, number: ToInt)
    requires IsLoaded(config) && IdsApart(digest, config.groups) && KeepsNumbers(number)
    ensures ParsedGroups(ConfigTo(config), show) == config.groups
    ensures ConfigFrom(ConfigTo(config), digest, show, number) == Some(config)
  {
    hide Apart, Assigned, IsPlainGroup;
    GroupsReadBack(config, show);
    WrittenCanLoad(config);
    AssigningAgain(digest, TypesOf(config.groups), IdsOf(config.groups));
    PutOwnAllIds(config.groups);
  }

  lemma WrittenCanLoad(config: Config)
    ensures CanLoad(ConfigTo(config))
  {
    var all := seq(|config.groups|, i requires 0 <= i < |config.groups| => GroupTo(config.groups[i]));
    MappingsReadBack(all);
    assert Get(ConfigTo(config), "groups") == List(seq(|all|, i requires 0 <= i < |all| => Dict(all[i])));
    forall g | g in all
      ensures CanIterate(Get(g, "tiles"))
    {
      var i :| 0 <= i < |all| && all[i] == g;
    }
  }

  // ---------------------------------------------------------------- whatever is loaded

  lemma {:induction false} PutIdsArePut(tiles: seq<Tile>, ids: seq<string>)
    requires |ids| == |WidgetsIn(tiles)|
    ensures var widgets := WidgetsIn(PutIds(tiles, ids));
            |widgets| == |ids| && forall i :: 0 <= i < |ids| ==> widgets[i].Widget? && widgets[i].id == ids[i]
  {
    if tiles != [] {
      var put := PutIds(tiles, ids);
      if tiles[0].Widget? {
        PutIdsArePut(tiles[1..], ids[1..]);
        assert put[1..] == PutIds(tiles[1..], ids[1..]);
      } else {
        PutIdsArePut(tiles[1..], ids);
        assert put[1..] == PutIds(tiles[1..], ids);
      }
    }
  }

  lemma {:induction false} PutKeepsTile(tiles: seq<Tile>, ids: seq<string>, i: nat)
    requires |ids| == |WidgetsIn(tiles)| && i < |tiles|
    ensures var put := PutIds(tiles, ids)[i];
            if tiles[i].Widget? then put.Widget? && put.id in ids && put == tiles[i].(id := put.id) else put == tiles[i]
  {
    if i > 0 {
      var rest := if tiles[0].Widget? then ids[1..] else ids;
      PutKeepsTile(tiles[1..], rest, i - 1);
      assert PutIds(tiles, ids)[1..] == PutIds(tiles[1..], rest);
      assert tiles[1..][i - 1] == tiles[i];
    }
  }

  function TileIds(tiles: seq<Tile>): seq<string> {
    WidgetsInAreWidgets(tiles);
    seq(|WidgetsIn(tiles)|, i requires 0 <= i < |WidgetsIn(tiles)| && WidgetsIn(tiles)[i].Widget? => WidgetsIn(tiles)[i].id)
  }

  lemma IdsSplit(groups: seq<Group>)
    requires groups != []
    ensures IdsOf(groups) == TileIds(groups[0].tiles) + IdsOf(groups[1..])
  {
    WidgetsInAreWidgets(groups[0].tiles);
  }

  lemma {:induction false} PutAllIdsArePut(groups: seq<Group>, ids: seq<string>)
    requires |ids| == |AllWidgets(groups)|
    ensures IdsOf(PutAllIds(groups, ids)) == ids
  {
    if groups != [] {
      var n := |WidgetsIn(groups[0].tiles)|;
      var put := PutAllIds(groups, ids);
      PutIdsArePut(groups[0].tiles, ids[..n]);
      PutAllIdsArePut(groups[1..], ids[n..]);
      assert put[1..] == PutAllIds(groups[1..], ids[n..]);
      IdsSplit(put);
      assert TileIds(put[0].tiles) == ids[..n];
      assert ids == ids[..n] + ids[n..];
    }
  }

  lemma {:induction false} PutAllIdsArePlain(groups: seq<Group>, ids: seq<string>)
    requires |ids| == |AllWidgets(groups)|
    requires forall i :: 0 <= i < |groups| ==> IsPlainGroup(groups[i])
    requires forall id :: id in ids ==> IsWidgetId(id)
    ensures forall i :: 0 <= i < |groups| ==> IsPlainGroup(PutAllIds(groups, ids)[i])
  {
    hide IsWidgetId, IsPlainGroup;
    if groups != [] {
      var n := |WidgetsIn(groups[0].tiles)|;
      PutAllIdsArePlain(groups[1..], ids[n..]);
      assert PutAllIds(groups, ids)[1..] == PutAllIds(groups[1..], ids[n..]);
      PlainAfterPut(groups[0], ids[..n]);
    }
  }

  lemma PlainAfterPut(group: Group, ids: seq<string>)
    requires |ids| == |WidgetsIn(group.tiles)| && IsPlainGroup(group) && forall id :: id in ids ==> IsWidgetId(id)
    ensures IsPlainGroup(group.(tiles := PutIds(group.tiles, ids)))
  {
    hide IsWidgetId;
    forall i | 0 <= i < |group.tiles|
      ensures IsPlainTile(PutIds(group.tiles, ids)[i])
    {
      PutKeepsTile(group.tiles, ids, i);
      assert IsPlainTile(group.tiles[i]);
    }
  }

  lemma TileIsPlain(fields: Fields, show: Raw -> string)
    requires forall raw :: show(raw) != ""
    ensures IsPlainTile(TileFrom(fields, show))
  {
  }

  /** What is parsed from a document, before ids are assigned. */
  lemma GroupsArePlain(all: seq<Fields>, show: Raw -> string)
    requires forall raw :: show(raw) != ""
    ensures forall i :: 0 <= i < |all| ==> IsPlainGroup(GroupsFrom(all, show)[i])
  {
    hide TileFrom;
    forall i, k | 0 <= i < |all| && 0 <= k < |GroupsFrom(all, show)[i].tiles|
      ensures IsPlainTile(GroupsFrom(all, show)[i].tiles[k])
    {
      TileIsPlain(Mappings(Get(all[i], "tiles"))[k], show);
    }
  }

  lemma {:induction false} GivenIdsFit(groups: seq<Group>, id: string)
    requires (forall i :: 0 <= i < |groups| ==> IsPlainGroup(groups[i])) && id in IdsOf(groups)
    ensures id == "" || IsWidgetId(id)
  {
    hide IsWidgetId;
    IdsSplit(groups);
    if id in IdsOf(groups[1..]) {
      GivenIdsFit(groups[1..], id);
    } else {
      assert IsPlainGroup(groups[0]);
      GivenTileIdsFit(groups[0].tiles, id);
    }
  }

  lemma {:induction false} GivenTileIdsFit(tiles: seq<Tile>, id: string)
    requires (forall i :: 0 <= i < |tiles| ==> IsPlainTile(tiles[i])) && id in TileIds(tiles)
    ensures id == "" || IsWidgetId(id)
  {
    hide IsWidgetId;
    var rest := tiles[1..];
    assert TileIds(tiles) == (if tiles[0].Widget? then [tiles[0].id] else []) + TileIds(rest);
    assert IsPlainTile(tiles[0]);
    if id in TileIds(rest) {
      GivenTileIdsFit(rest, id);
    }
  }

  lemma AssignedIdsFit(groups: seq<Group>, digest: Digest, id: string)
    requires (forall i :: 0 <= i < |groups| ==> IsPlainGroup(groups[i])) && IdsApart(digest, groups)
    requires forall w, n :: IsWidgetId(digest(w, n))
    requires id in Assigned(digest, TypesOf(groups), IdsOf(groups))
    ensures IsWidgetId(id)
  {
    hide IsWidgetId, IsPlainGroup, Apart;
    IdsAreUnique(digest, TypesOf(groups), IdsOf(groups));
    var k :| 0 <= k < |IdsOf(groups)| && Assigned(digest, TypesOf(groups), IdsOf(groups))[k] == id;
    var given := IdsOf(groups)[k];
    if given != "" && given !in IdsOf(groups)[..k] {
      GivenIdsFit(groups, given);
    }
  }

  /** Loading, saving and loading again gives the same configuration, with a unique id on every
      widget. */
  lemma SaveKeepsWhatWasLoaded(fields: Fields, digest: Digest, show: Raw -> string, number: ToInt)
    requires IdsApart(digest, ParsedGroups(fields, show)) && KeepsNumbers(number)
    requires (forall w, n :: IsWidgetId(digest(w, n))) && forall raw :: show(raw) != ""
    requires ConfigFrom(fields, digest, show, number).Some?
    ensures var config := ConfigFrom(fields, digest, show, number).value;
            && HasUniqueIds(config.groups) && IdsApart(digest, config.groups)
            && ParsedGroups(ConfigTo(config), show) == config.groups
            && ConfigFrom(ConfigTo(config), digest, show, number) == Some(config)
  {
    hide Apart, IsPlainGroup, IsWidgetId, CanLoad;
    var groups, config := ParsedGroups(fields, show), ConfigFrom(fields, digest, show, number).value;
    GroupsArePlain(Mappings(Get(fields, "groups")), show);
    var ids := Assigned(digest, TypesOf(groups), IdsOf(groups));
    IdsAreUnique(digest, TypesOf(groups), IdsOf(groups));
    PutAllIdsArePut(groups, ids);
    forall id | id in ids
      ensures IsWidgetId(id)
    {
      AssignedIdsFit(groups, digest, id);
    }
    PutAllIdsArePlain(groups, ids);
    PutAllKeepsTypes(groups, ids);
    assert IdsOf(config.groups) == ids;
    ConfigReadsBack(config, digest, show, number);
  }

  function TileTypes(tiles: seq<Tile>): seq<string> {
    WidgetsInAreWidgets(tiles);
    seq(|WidgetsIn(tiles)|, i requires 0 <= i < |WidgetsIn(tiles)| && WidgetsIn(tiles)[i].Widget? => WidgetsIn(tiles)[i].widget)
  }

  lemma TypesSplit(groups: seq<Group>)
    requires groups != []
    ensures TypesOf(groups) == TileTypes(groups[0].tiles) + TypesOf(groups[1..])
  {
    WidgetsInAreWidgets(groups[0].tiles);
  }

  lemma {:induction false} PutKeepsTypes(tiles: seq<Tile>, ids: seq<string>)
    requires |ids| == |WidgetsIn(tiles)|
    ensures TileTypes(PutIds(tiles, ids)) == TileTypes(tiles)
  {
    if tiles != [] {
      var rest := if tiles[0].Widget? then ids[1..] else ids;
      PutKeepsTypes(tiles[1..], rest);
      var put := PutIds(tiles, ids);
      assert put[1..] == PutIds(tiles[1..], rest);
      TypesOfFirst(tiles);
      TypesOfFirst(put);
    }
  }

  lemma TypesOfFirst(tiles: seq<Tile>)
    requires tiles != []
    ensures TileTypes(tiles) == (if tiles[0].Widget? then [tiles[0].widget] else []) + TileTypes(tiles[1..])
  {
    WidgetsInAreWidgets(tiles[1..]);
  }

  lemma {:induction false} PutAllKeepsTypes(groups: seq<Group>, ids: seq<string>)
    requires |ids| == |AllWidgets(groups)|
    ensures TypesOf(PutAllIds(groups, ids)) == TypesOf(groups)
  {
    hide TileTypes, TypesOf;
    if groups != [] {
      var n := |WidgetsIn(groups[0].tiles)|;
      var put := PutAllIds(groups, ids);
      PutKeepsTypes(groups[0].tiles, ids[..n]);
      PutAllKeepsTypes(groups[1..], ids[n..]);
      assert put[1..] == PutAllIds(groups[1..], ids[n..]);
      TypesSplit(groups);
      TypesSplit(put);
    }
  }

  lemma {:induction false} PutAllKeepsTiles(groups: seq<Group>, ids: seq<string>, i: nat, k: nat)
    requires |ids| == |AllWidgets(groups)| && i < |groups| && k < |groups[i].tiles|
    ensures var put := PutAllIds(groups, ids)[i];
            && put.name == groups[i].name && |put.tiles| == |groups[i].tiles|
            && var tile, was := put.tiles[k], groups[i].tiles[k];
               if was.Widget? then tile.Widget? && tile == was.(id := tile.id) else tile == was
  {
    var n := |WidgetsIn(groups[0].tiles)|;
    if i == 0 {
      PutKeepsTile(groups[0].tiles, ids[..n], k);
    } else {
      PutAllKeepsTiles(groups[1..], ids[n..], i - 1, k);
      assert PutAllIds(groups, ids)[1..] == PutAllIds(groups[1..], ids[n..]);
      assert groups[1..][i - 1] == groups[i];
    }
  }

  /** Loading gives every mapping of the document its place: the tile that is read from it, with
      another id at most. */
  lemma LoadedAsRead(fields: Fields, digest: Digest, show: Raw -> string, number: ToInt, i: nat, k: nat)
    requires IdsApart(digest, ParsedGroups(fields, show)) && ConfigFrom(fields, digest, show, number).Some?
    requires var all := Mappings(Get(fields, "groups")); i < |all| && k < |Mappings(Get(all[i], "tiles"))|
    ensures var config, all := ConfigFrom(fields, digest, show, number).value, Mappings(Get(fields, "groups"));
            var read := TileFrom(Mappings(Get(all[i], "tiles"))[k], show);
            && |config.groups| == |all| && |config.groups[i].tiles| == |Mappings(Get(all[i], "tiles"))|
            && (forall text :: Says(all[i], "name", text) ==> config.groups[i].name == text)
            && var tile := config.groups[i].tiles[k];
               if read.Widget? then tile.Widget? && tile == read.(id := tile.id) else tile == read
  {
    hide Assigned, TileFrom, Mappings, Apart;
    var groups := ParsedGroups(fields, show);
    PutAllKeepsTiles(groups, Assigned(digest, TypesOf(groups), IdsOf(groups)), i, k);
  }
}
