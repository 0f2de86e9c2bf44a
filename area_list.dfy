/**
 * The area selection screen: the area list of the Japan Meteorological Agency grouped by
 * regional center, each center's offices in the order its `children` list gives, filtered
 * by the search box.
 */
module AreaList {
  import opened Wrappers
  import opened PyText

  /** A center of `centers`: its `name` and its `children` office codes, each optional. */
  datatype CenterInfo = CenterInfo(name: Option<string>, children: Option<seq<string>>)

  /** An office of `offices`: its optional `name`. */
  datatype OfficeInfo = OfficeInfo(name: Option<string>)

  /** The area list: `centers` in the order of the document, `offices` by code, and whether
      the document has any other key (which makes it non-empty, hence truthy). */
  datatype AreaData = AreaData(
    centers: Option<seq<(string, CenterInfo)>>,
    offices: Option<map<string, OfficeInfo>>,
    otherKeys: bool)

  /** `if self.areas_data:` — present and not an empty dictionary. */
  predicate Truthy(data: Option<AreaData>) {
    data.Some? && (data.value.centers.Some? || data.value.offices.Some? || data.value.otherKeys)
  }

  /** A tile of one office: its name and its code. */
  datatype AreaTile = AreaTile(name: string, code: string)

  /** The controls of the list column. */
  datatype Control =
    | Spinner
    | LoadFailed
    | RegionGroup(name: string, count: int, tiles: seq<AreaTile>)
    | NotFound

  /** `center_info.get('name', '不明な地方')`. */
  function CenterName(info: CenterInfo): string {
    info.name.GetOr("不明な地方")
  }

  /** `area_info.get('name', '不明')`. */
  function OfficeName(info: OfficeInfo): string {
    info.name.GetOr("不明")
  }

  /** The search filter: an empty query keeps every area, any other keeps the areas whose
      lower-cased name contains the lower-cased query. */
  predicate Shown(query: string, name: string) {
    query == "" || Contains(Lower(name), Lower(query))
  }

  /** The tile of child `code`, if it is an office that the query keeps. */
  function TileFor(code: string, offices: map<string, OfficeInfo>, query: string): seq<AreaTile> {
    if code in offices && Shown(query, OfficeName(offices[code])) then [AreaTile(OfficeName(offices[code]), code)]
    else []
  }

  /** The tiles of a center's children, in their order. */
  function TilesOf(children: seq<string>, offices: map<string, OfficeInfo>, query: string): seq<AreaTile>
    decreases |children|
  {
    if children == [] then []
    else TilesOf(children[..|children| - 1], offices, query) + TileFor(children[|children| - 1], offices, query)
  }

  /** The group of one center, or nothing when none of its children is shown. */
  function GroupFor(center: (string, CenterInfo), offices: map<string, OfficeInfo>, query: string): seq<Control> {
    var tiles := TilesOf(center.1.children.GetOr([]), offices, query);
    if tiles == [] then [] else [RegionGroup(CenterName(center.1), |tiles|, tiles)]
  }

  /** The groups of the centers, in their order. */
  function Groups(centers: seq<(string, CenterInfo)>, offices: map<string, OfficeInfo>, query: string): seq<Control>
    decreases |centers|
  {
    if centers == [] then []
    else Groups(centers[..|centers| - 1], offices, query) + GroupFor(centers[|centers| - 1], offices, query)
  }

  /** The list column `_display_areas` leaves behind. */
  function AreaControls(data: AreaData, query: string): seq<Control> {
    var groups := Groups(data.centers.GetOr([]), data.offices.GetOr(map[]), query);
    if groups == [] then [NotFound] else groups
  }

  /** The list column after a load. */
  function LoadedControls(fetched: Option<AreaData>, query: string): seq<Control> {
    if Truthy(fetched) then AreaControls(fetched.value, query) else [LoadFailed]
  }

  /** The tiles of two runs of children are the tiles of each, one after the other: the
      list keeps the children's order, so every tile of an earlier run of children comes
      before every tile of a later one. */
  lemma {:induction false} TilesAppend(a: seq<string>, b: seq<string>, offices: map<string, OfficeInfo>, query: string)
    ensures TilesOf(a + b, offices, query) == TilesOf(a, offices, query) + TilesOf(b, offices, query)
    decreases |b|
  {
    if b != [] {
      var b' := b[..|b| - 1];
      assert (a + b)[..|a + b| - 1] == a + b';
      TilesAppend(a, b', offices, query);
    } else {
      assert a + b == a;
    }
  }

  /** A tile is shown exactly for a child that is an office, under the office's name (or
      `不明`), when the query keeps that name. */
  lemma {:induction false} TilesShown(children: seq<string>, offices: map<string, OfficeInfo>, query: string, t: AreaTile)
    ensures t in TilesOf(children, offices, query) <==>
      t.code in children && t.code in offices && t.name == OfficeName(offices[t.code]) && Shown(query, t.name)
    decreases |children|
  {
    if children != [] {
      var init := children[..|children| - 1];
      TilesShown(init, offices, query, t);
      assert children == init + [children[|children| - 1]];
    }
  }

  /** With an empty query, every child that is an office is shown. */
  lemma EmptyQueryShowsAll(children: seq<string>, offices: map<string, OfficeInfo>, code: string)
    requires code in children && code in offices
    ensures AreaTile(OfficeName(offices[code]), code) in TilesOf(children, offices, "")
  {
    TilesShown(children, offices, "", AreaTile(OfficeName(offices[code]), code));
  }

  /** The groups of two runs of centers are the groups of each, one after the other: the
      list keeps the centers' order, so the groups of earlier centers come before the groups
      of later ones. */
  lemma {:induction false} GroupsAppend(a: seq<(string, CenterInfo)>, b: seq<(string, CenterInfo)>, offices: map<string, OfficeInfo>, query: string)
    ensures Groups(a + b, offices, query) == Groups(a, offices, query) + Groups(b, offices, query)
    decreases |b|
  {
    if b != [] {
      var b' := b[..|b| - 1];
      assert (a + b)[..|a + b| - 1] == a + b';
      GroupsAppend(a, b', offices, query);
    } else {
      assert a + b == a;
    }
  }

  /** Every group is a center with at least one shown area, titled with the center's name
      (or `不明な地方`), and its count is its number of tiles. */
  lemma {:induction false} GroupsWellFormed(centers: seq<(string, CenterInfo)>, offices: map<string, OfficeInfo>, query: string)
    ensures forall g :: g in Groups(centers, offices, query) ==>
      && g.RegionGroup?
      && g.tiles != [] && g.count == |g.tiles|
      && exists c :: c in centers && g.name == CenterName(c.1) && g.tiles == TilesOf(c.1.children.GetOr([]), offices, query)
    decreases |centers|
  {
    if centers != [] {
      var init := centers[..|centers| - 1];
      GroupsWellFormed(init, offices, query);
      assert forall c :: c in init ==> c in centers;
      assert centers[|centers| - 1] in centers;
    }
  }

  /** A center's group is listed exactly when one of its children is shown. */
  lemma {:induction false} GroupListed(centers: seq<(string, CenterInfo)>, offices: map<string, OfficeInfo>, query: string, k: nat)
    requires k < |centers|
    ensures var tiles := TilesOf(centers[k].1.children.GetOr([]), offices, query);
      tiles != [] <==> RegionGroup(CenterName(centers[k].1), |tiles|, tiles) in Groups(centers, offices, query)
    decreases |centers|
  {
    var tiles := TilesOf(centers[k].1.children.GetOr([]), offices, query);
    var g := RegionGroup(CenterName(centers[k].1), |tiles|, tiles);
    var init := centers[..|centers| - 1];
    if k < |centers| - 1 {
      GroupListed(init, offices, query, k);
      assert init[k] == centers[k];
      if tiles == [] {
        GroupsWellFormed(centers, offices, query);
      }
    } else {
      if tiles == [] {
        GroupsWellFormed(centers, offices, query);
      }
    }
  }

  /** No group is listed exactly when no center has a shown area. */
  lemma {:induction false} GroupsEmpty(centers: seq<(string, CenterInfo)>, offices: map<string, OfficeInfo>, query: string)
    ensures Groups(centers, offices, query) == [] <==>
      forall k :: 0 <= k < |centers| ==> TilesOf(centers[k].1.children.GetOr([]), offices, query) == []
    decreases |centers|
  {
    if centers != [] {
      var init := centers[..|centers| - 1];
      var last := centers[|centers| - 1];
      GroupsEmpty(init, offices, query);
      NoneShownSplit(centers, offices, query);
      assert Groups(centers, offices, query) == Groups(init, offices, query) + GroupFor(last, offices, query);
    }
  }

  /** No center of a run has a shown area exactly when none of all but the last has one and
      the last has none. */
  lemma NoneShownSplit(centers: seq<(string, CenterInfo)>, offices: map<string, OfficeInfo>, query: string)
    requires centers != []
    ensures var init := centers[..|centers| - 1];
      (forall k :: 0 <= k < |centers| ==> TilesOf(centers[k].1.children.GetOr([]), offices, query) == [])
      <==>
      && (forall k :: 0 <= k < |init| ==> TilesOf(init[k].1.children.GetOr([]), offices, query) == [])
      && TilesOf(centers[|centers| - 1].1.children.GetOr([]), offices, query) == []
  {
    var init := centers[..|centers| - 1];
    assert forall k :: 0 <= k < |init| ==> init[k] == centers[k];
  }

  /** The placeholder is shown exactly when no center has a shown area; otherwise the
      column holds only groups. */
  lemma NotFoundExactly(data: AreaData, query: string)
    ensures var centers := data.centers.GetOr([]);
      var offices := data.offices.GetOr(map[]);
      && (AreaControls(data, query) == [NotFound] <==>
            forall k :: 0 <= k < |centers| ==> TilesOf(centers[k].1.children.GetOr([]), offices, query) == [])
      && forall c :: c in AreaControls(data, query) && c != NotFound ==> c.RegionGroup? && c.tiles != []
  {
    var centers := data.centers.GetOr([]);
    var offices := data.offices.GetOr(map[]);
    GroupsWellFormed(centers, offices, query);
    GroupsEmpty(centers, offices, query);
    var groups := Groups(centers, offices, query);
    if groups != [] {
      assert groups[0] in groups;
    }
  }

  /** The inner loop of `_display_areas`: the tiles of one center's children. */
  method RegionTiles(children: seq<string>, offices: map<string, OfficeInfo>, query: string)
    returns (tiles: seq<AreaTile>)
    ensures tiles == TilesOf(children, offices, query)
  {
    tiles := [];
    for i := 0 to |children|
      invariant tiles == TilesOf(children[..i], offices, query)
    {
      var code := children[i];
      assert children[..i + 1][..i] == children[..i];
      if code in offices {
        var name := OfficeName(offices[code]);
        if query != "" && !Contains(Lower(name), Lower(query)) {
          continue;
        }
        tiles := tiles + [AreaTile(name, code)];
      }
    }
    assert children[..|children|] == children;
  }

  /** The area selection screen: the fetched area list, the search query and the list
      column. */
  class AreaListView {
    /** `areas_data`: the fetched list, None when the fetch failed. */
    var areasData: Option<AreaData>
    /** `search_query`. */
    var searchQuery: string
    /** `area_list_column.controls`. */
    var listControls: seq<Control>

    /** The screen starts with an empty query and a spinner, then loads the fetched list. */
    constructor (fetched: Option<AreaData>)
      ensures areasData == fetched && searchQuery == ""
      ensures listControls == LoadedControls(fetched, "")
    {
      areasData := None;
      searchQuery := "";
      listControls := [Spinner];
      new;
      LoadAreas(fetched);
    }

    /** `_load_areas` with the fetch's result as input. */
    method LoadAreas(fetched: Option<AreaData>)
      modifies this
      ensures areasData == fetched && searchQuery == old(searchQuery)
      ensures listControls == LoadedControls(fetched, searchQuery)
    {
      areasData := fetched;
      if Truthy(fetched) {
        var raised := DisplayAreas();
      } else {
        listControls := [LoadFailed];
      }
    }

    /** `_display_areas`: clears the column, appends one group per center with a shown area
        and the placeholder when none was appended. Without an area list, `.get` on None
        raises right after the column has been cleared. */
    method DisplayAreas() returns (raised: bool)
      modifies this`listControls
      ensures raised <==> areasData.None?
      ensures raised ==> listControls == []
      ensures !raised ==> listControls == AreaControls(areasData.value, searchQuery)
    {
      listControls := [];
      if areasData.None? {
        return true;
      }
      raised := false;
      var centers := areasData.value.centers.GetOr([]);
      var offices := areasData.value.offices.GetOr(map[]);
      for i := 0 to |centers|
        invariant listControls == Groups(centers[..i], offices, searchQuery)
      {
        var center := centers[i];
        var centerName := CenterName(center.1);
        var children := center.1.children.GetOr([]);
        var tiles := RegionTiles(children, offices, searchQuery);
        assert centers[..i + 1][..i] == centers[..i];
        if tiles == [] {
          continue;
        }
        listControls := listControls + [RegionGroup(centerName, |tiles|, tiles)];
      }
      assert centers[..|centers|] == centers;
      if listControls == [] {
        listControls := listControls + [NotFound];
      }
    }

    /** `_on_search_changed`: stores the new query and rebuilds the column from it alone. */
    method OnSearchChanged(value: string) returns (raised: bool)
      modifies this
      ensures searchQuery == value && areasData == old(areasData)
      ensures raised <==> areasData.None?
      ensures raised ==> listControls == []
      ensures !raised ==> listControls == AreaControls(areasData.value, value)
    {
      searchQuery := value;
      raised := DisplayAreas();
    }
  }
}
