/**
 * The gallery's catalog query pipeline: the search/category filter, the
 * four-key sort of a copy of the catalog, and the rendering of the result as
 * a grid of cards. `localeCompare` and `new Date(..)` are parameters.
 */
module Gallery {
  import opened Text
  import opened Filtering
  import opened StableSort

  datatype Option<T> = None | Some(value: T)

  /** One catalog entry of `app.models`. */
  datatype Model = Model(
    id: int,
    name: string,
    description: string,
    category: string,
    emoji: string,
    vertices: int,
    faces: int,
    date: string)

  // ---------------------------------------------------------------- filter

  /** The per-entry test of `filterModels`; `searchTerm` is already lower-cased. */
  predicate Matches(m: Model, searchTerm: string, category: string)
  {
    var matchesSearch := Contains(Lower(m.name), searchTerm) || Contains(Lower(m.description), searchTerm);
    var matchesCategory := category == "" || m.category == category;
    matchesSearch && matchesCategory
  }

  function Query(searchTerm: string, category: string): Model -> bool
  {
    m => Matches(m, searchTerm, category)
  }

  /** The list `filterModels` hands to the grid, for the raw search box value and the selected category. */
  function FilterView(catalog: seq<Model>, searchValue: string, category: string): seq<Model>
  {
    Filter(catalog, Query(Lower(searchValue), category))
  }

  /** The filter keeps exactly the matching entries, each as often as in the catalog, in catalog order. */
  lemma FilterViewExact(catalog: seq<Model>, searchValue: string, category: string)
    ensures var r := FilterView(catalog, searchValue, category);
      && (forall i :: 0 <= i < |r| ==> Matches(r[i], Lower(searchValue), category))
      && (forall m :: m in r <==> m in catalog && Matches(m, Lower(searchValue), category))
      && (forall m :: multiset(r)[m] == if Matches(m, Lower(searchValue), category) then multiset(catalog)[m] else 0)
      && IsSubsequence(r, catalog)
  {
    var p := Query(Lower(searchValue), category);
    FilterSatisfies(catalog, p);
    forall m ensures m in Filter(catalog, p) <==> m in catalog && p(m) {
      FilterMembership(catalog, p, m);
    }
    forall m ensures multiset(Filter(catalog, p))[m] == if p(m) then multiset(catalog)[m] else 0 {
      FilterCount(catalog, p, m);
    }
    FilterIsSubsequence(catalog, p);
  }

  /** With an empty search box and no category, the whole catalog is shown unchanged. */
  lemma EmptyQueryKeepsCatalog(catalog: seq<Model>)
    ensures FilterView(catalog, "", "") == catalog
  {
    forall i | 0 <= i < |catalog| ensures Query(Lower(""), "")(catalog[i]) {
      ContainsEmpty(Lower(catalog[i].name));
    }
    FilterKeepsAll(catalog, Query(Lower(""), ""));
  }

  /** The search is case-insensitive: a term found in the name in any letter case matches. */
  lemma SearchFindsNameInAnyCase(m: Model, searchValue: string, i: int)
    requires OccursAt(Lower(m.name), Lower(searchValue), i)
    ensures Matches(m, Lower(searchValue), "")
    ensures Matches(m, Lower(searchValue), m.category)
  {
    ContainsIff(Lower(m.name), Lower(searchValue));
  }

  /** A search term differing from a name only in letter case selects that entry. */
  lemma CaseVariantOfNameMatches(m: Model, searchValue: string)
    requires Lower(searchValue) == Lower(m.name)
    ensures Matches(m, Lower(searchValue), "")
  {
  }

  /** The category test is exact: a selected category differing only in case rejects the entry. */
  lemma CategoryIsCaseSensitive(m: Model, searchTerm: string)
    requires m.category == "Vehicles"
    ensures Lower("Vehicles") == Lower("vehicles")
    ensures !Matches(m, searchTerm, "vehicles")
  {
  }

  // ------------------------------------------------------------------ sort

  /**
   * The comparator handed to `sorted.sort` for a sort key, or None when the
   * `switch` has no case for it and the copy stays in catalog order.
   */
  function ComparatorFor(sortValue: string, localeCompare: (string, string) -> int, parseDate: string -> int)
    : Option<(Model, Model) -> int>
  {
    if sortValue == "name-asc" then Some((a: Model, b: Model) => localeCompare(a.name, b.name))
    else if sortValue == "name-desc" then Some((a: Model, b: Model) => localeCompare(b.name, a.name))
    else if sortValue == "date-new" then Some((a: Model, b: Model) => parseDate(b.date) - parseDate(a.date))
    else if sortValue == "date-old" then Some((a: Model, b: Model) => parseDate(a.date) - parseDate(b.date))
    else None
  }

  /** The list `sortModels` hands to the grid: the whole catalog, stably sorted by the key. */
  function SortView(catalog: seq<Model>, sortValue: string, localeCompare: (string, string) -> int, parseDate: string -> int)
    : seq<Model>
  {
    match ComparatorFor(sortValue, localeCompare, parseDate)
    case None => catalog
    case Some(cmp) => InsertionSort(catalog, cmp)
  }

  /** The date comparators are always consistent, the name comparators whenever `localeCompare` is. */
  lemma ComparatorsConsistent(sortValue: string, localeCompare: (string, string) -> int, parseDate: string -> int)
    requires sortValue == "date-new" || sortValue == "date-old" || Consistent(localeCompare)
    ensures ComparatorFor(sortValue, localeCompare, parseDate).Some? ==>
      Consistent(ComparatorFor(sortValue, localeCompare, parseDate).value)
  {
    match ComparatorFor(sortValue, localeCompare, parseDate)
    case None =>
    case Some(cmp) =>
      forall a: Model, b: Model ensures Before(cmp, a, b) || Before(cmp, b, a) {
        if sortValue == "name-asc" || sortValue == "name-desc" {
          assert Before(localeCompare, a.name, b.name) || Before(localeCompare, b.name, a.name);
        }
      }
      forall a: Model, b: Model, c: Model | Before(cmp, a, b) && Before(cmp, b, c) ensures Before(cmp, a, c) {
        if sortValue == "name-asc" {
          assert Before(localeCompare, a.name, b.name) && Before(localeCompare, b.name, c.name);
        } else if sortValue == "name-desc" {
          assert Before(localeCompare, c.name, b.name) && Before(localeCompare, b.name, a.name);
        }
      }
  }

  /** Sorting shows every catalog entry exactly as often as it occurs, whatever the key. */
  lemma SortViewPermutes(catalog: seq<Model>, sortValue: string, localeCompare: (string, string) -> int, parseDate: string -> int)
    ensures multiset(SortView(catalog, sortValue, localeCompare, parseDate)) == multiset(catalog)
    ensures |SortView(catalog, sortValue, localeCompare, parseDate)| == |catalog|
  {
    match ComparatorFor(sortValue, localeCompare, parseDate)
    case None =>
    case Some(cmp) => SortPermutes(catalog, cmp);
  }

  /** An unrecognised key leaves the catalog order as it is. */
  lemma UnknownKeyKeepsOrder(catalog: seq<Model>, sortValue: string, localeCompare: (string, string) -> int, parseDate: string -> int)
    requires sortValue != "name-asc" && sortValue != "name-desc" && sortValue != "date-new" && sortValue != "date-old"
    ensures SortView(catalog, sortValue, localeCompare, parseDate) == catalog
  {
  }

  /** `name-asc`: names are non-decreasing under `localeCompare`. */
  lemma NameAscOrdered(catalog: seq<Model>, localeCompare: (string, string) -> int, parseDate: string -> int)
    requires Consistent(localeCompare)
    ensures var r := SortView(catalog, "name-asc", localeCompare, parseDate);
      forall i, j :: 0 <= i < j < |r| ==> localeCompare(r[i].name, r[j].name) <= 0
  {
    ComparatorsConsistent("name-asc", localeCompare, parseDate);
    SortSorted(catalog, ComparatorFor("name-asc", localeCompare, parseDate).value);
  }

  /** `name-desc`: names are non-increasing under `localeCompare`. */
  lemma NameDescOrdered(catalog: seq<Model>, localeCompare: (string, string) -> int, parseDate: string -> int)
    requires Consistent(localeCompare)
    ensures var r := SortView(catalog, "name-desc", localeCompare, parseDate);
      forall i, j :: 0 <= i < j < |r| ==> localeCompare(r[j].name, r[i].name) <= 0
  {
    ComparatorsConsistent("name-desc", localeCompare, parseDate);
    SortSorted(catalog, ComparatorFor("name-desc", localeCompare, parseDate).value);
  }

  /** `date-new`: timestamps are non-increasing, newest first. */
  lemma DateNewOrdered(catalog: seq<Model>, localeCompare: (string, string) -> int, parseDate: string -> int)
    ensures var r := SortView(catalog, "date-new", localeCompare, parseDate);
      forall i, j :: 0 <= i < j < |r| ==> parseDate(r[i].date) >= parseDate(r[j].date)
  {
    ComparatorsConsistent("date-new", localeCompare, parseDate);
    SortSorted(catalog, ComparatorFor("date-new", localeCompare, parseDate).value);
  }

  /** `date-old`: timestamps are non-decreasing, oldest first. */
  lemma DateOldOrdered(catalog: seq<Model>, localeCompare: (string, string) -> int, parseDate: string -> int)
    ensures var r := SortView(catalog, "date-old", localeCompare, parseDate);
      forall i, j :: 0 <= i < j < |r| ==> parseDate(r[i].date) <= parseDate(r[j].date)
  {
    ComparatorsConsistent("date-old", localeCompare, parseDate);
    SortSorted(catalog, ComparatorFor("date-old", localeCompare, parseDate).value);
  }

  /** Entries the key cannot tell apart appear in catalog order. */
  lemma SortViewStable(catalog: seq<Model>, sortValue: string, localeCompare: (string, string) -> int, parseDate: string -> int, y: Model)
    requires Consistent(localeCompare)
    ensures ComparatorFor(sortValue, localeCompare, parseDate).Some? ==>
      var cmp := ComparatorFor(sortValue, localeCompare, parseDate).value;
      Filter(SortView(catalog, sortValue, localeCompare, parseDate), Tie(cmp, y)) == Filter(catalog, Tie(cmp, y))
  {
    ComparatorsConsistent(sortValue, localeCompare, parseDate);
    match ComparatorFor(sortValue, localeCompare, parseDate)
    case None =>
    case Some(cmp) => SortStable(catalog, cmp, y);
  }

  /** Any stable sort by the key, not only the one modelled here, produces `SortView`. */
  lemma SortViewIsTheStableSort(catalog: seq<Model>, sortValue: string, localeCompare: (string, string) -> int, parseDate: string -> int, r: seq<Model>)
    requires Consistent(localeCompare)
    requires ComparatorFor(sortValue, localeCompare, parseDate).Some?
    requires var cmp := ComparatorFor(sortValue, localeCompare, parseDate).value;
      && Sorted(r, cmp)
      && multiset(r) == multiset(catalog)
      && forall y :: Filter(r, Tie(cmp, y)) == Filter(catalog, Tie(cmp, y))
    ensures r == SortView(catalog, sortValue, localeCompare, parseDate)
  {
    ComparatorsConsistent(sortValue, localeCompare, parseDate);
    StableSortUnique(catalog, r, ComparatorFor(sortValue, localeCompare, parseDate).value);
  }

  // ---------------------------------------------------------------- render

  /** The content of one `model-card`: thumbnail, title, category, description, stats and the two actions. */
  datatype Card = Card(
    thumbnail: string,
    title: string,
    category: string,
    description: string,
    vertices: int,
    faces: int,
    viewId: int,
    downloadId: int)

  /** A child of the grid: the empty-result message or a card. */
  datatype Element = Notice(text: string) | ModelCard(card: Card)

  const NoModelsFound: string := "No models found"

  function CardFor(m: Model): Card
  {
    Card(m.emoji, m.name, m.category, m.description, m.vertices, m.faces, m.id, m.id)
  }

  /** The cards appended for `list`, one per entry in order. */
  function Cards(list: seq<Model>): seq<Element>
    decreases |list|
  {
    if list == [] then [] else Cards(list[..|list| - 1]) + [ModelCard(CardFor(list[|list| - 1]))]
  }

  /** What the grid holds after `displayFilteredModels(list)`. */
  function Render(list: seq<Model>): seq<Element>
  {
    if |list| == 0 then [Notice(NoModelsFound)] else Cards(list)
  }

  /** An empty list shows exactly one element, the placeholder, and no card. */
  lemma RenderEmpty()
    ensures |Render([])| == 1 && Render([])[0].Notice?
  {
  }

  lemma {:induction false} CardsInOrder(list: seq<Model>)
    ensures |Cards(list)| == |list|
    ensures forall i :: 0 <= i < |list| ==> Cards(list)[i] == ModelCard(CardFor(list[i]))
    decreases |list|
  {
    if list != [] {
      var init := list[..|list| - 1];
      CardsInOrder(init);
      assert forall i :: 0 <= i < |init| ==> init[i] == list[i];
    }
  }

  /** A non-empty list shows one card per entry, in order, and no placeholder. */
  lemma RenderOneCardPerModel(list: seq<Model>)
    requires |list| > 0
    ensures |Render(list)| == |list|
    ensures forall i :: 0 <= i < |list| ==> Render(list)[i] == ModelCard(CardFor(list[i]))
    ensures forall i :: 0 <= i < |Render(list)| ==> !Render(list)[i].Notice?
  {
    CardsInOrder(list);
  }

  // ----------------------------------------------------------------- state

  /** The `modelsGrid` element: its children in order. */
  class Grid {
    var children: seq<Element>

    constructor ()
      ensures children == []
    {
      children := [];
    }
  }

  /** The page: the catalog `app.models` and the grid the gallery renders into. */
  class App {
    const models: array<Model>
    const grid: Grid

    constructor (models: array<Model>, grid: Grid)
      ensures this.models == models && this.grid == grid
    {
      this.models := models;
      this.grid := grid;
    }

    /** Clears the grid, then shows the placeholder or appends one card per entry. */
    method DisplayFilteredModels(list: seq<Model>)
      modifies grid
      ensures grid.children == Render(list)
    {
      grid.children := [];
      if |list| == 0 {
        grid.children := [Notice(NoModelsFound)];
        return;
      }
      var i := 0;
      while i < |list|
        invariant 0 <= i <= |list|
        invariant grid.children == Cards(list[..i])
      {
        assert list[..i + 1][..i] == list[..i];
        grid.children := grid.children + [ModelCard(CardFor(list[i]))];
        i := i + 1;
      }
      assert list[..i] == list;
    }

    /** Shows the catalog entries matching the search box value and the selected category. */
    method FilterModels(searchValue: string, category: string)
      modifies grid
      ensures grid.children == Render(FilterView(models[..], searchValue, category))
    {
      var searchTerm := Lower(searchValue);
      var filtered := Filter(models[..], Query(searchTerm, category));
      DisplayFilteredModels(filtered);
    }

    /**
     * Shows a sorted copy of the whole catalog, ignoring any active filter;
     * `app.models` itself is left as it was.
     */
    method SortModels(sortValue: string, localeCompare: (string, string) -> int, parseDate: string -> int)
      modifies grid
      ensures models[..] == old(models[..])
      ensures grid.children == Render(SortView(models[..], sortValue, localeCompare, parseDate))
    {
      var sorted := new Model[models.Length](i requires 0 <= i < models.Length reads models => models[i]);
      assert sorted[..] == models[..];
      match ComparatorFor(sortValue, localeCompare, parseDate) {
        case None =>
        case Some(cmp) => SortInPlace(sorted, cmp);
      }
      DisplayFilteredModels(sorted[..]);
    }
  }
}
