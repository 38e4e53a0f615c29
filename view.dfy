/** The state of the problem-list component: the loaded catalog, the phase
    and subcategory chosen in the two dropdowns, and the set of slugs the
    remote service reports as solved. The two network requests are not
    modelled; only the values they deliver are, as `CatalogResponse` and
    `SolvedResponse`. */
module ProblemView {
  import opened Slugs

  datatype Problem = Problem(title: string, url: string)

  /** phase -> subcategory -> problems, as read from problems.json */
  type Catalog = map<string, map<string, seq<Problem>>>

  /** What fetching problems.json delivers: the parsed catalog, or a failure
      (which is only logged). */
  datatype CatalogResponse = CatalogLoaded(catalog: Catalog) | CatalogFailed

  datatype Submission = Submission(titleSlug: string)

  /** What the solved-problems request delivers: a body carrying `errors`, a
      body carrying the list of recent accepted submissions, or an exception
      (from the request, from parsing the body, or from reading a missing
      `data` field). */
  datatype SolvedResponse =
    | GraphQLErrors
    | Submissions(list: seq<Submission>)
    | Thrown

  /** `new Set(list.map(s => s.titleSlug))`: every title slug of the list,
      each once, in no particular order. */
  function SlugSet(list: seq<Submission>): (slugs: set<string>)
    ensures forall x :: x in slugs <==> exists i :: 0 <= i < |list| && list[i].titleSlug == x
    ensures |slugs| <= |list|
    decreases |list|
  {
    if list == [] then {}
    else SlugSet(list[..|list| - 1]) + {list[|list| - 1].titleSlug}
  }

  /** The solved set after one response to the solved-problems request. */
  function NextSolved(prior: set<string>, response: SolvedResponse): (next: set<string>)
    ensures !response.Submissions? ==> next == prior
    ensures response.Submissions? ==>
      forall x :: x in next <==> exists i :: 0 <= i < |response.list| && response.list[i].titleSlug == x
  {
    match response
    case Submissions(list) => SlugSet(list)
    case _ => prior
  }

  /** Whether a problem is shown as solved: its slug is in the solved set.
      A problem whose URL is empty has an undefined slug, which no set of
      strings contains. */
  predicate IsSolved(p: Problem, solved: set<string>)
    ensures IsSolved(p, solved) ==> p.url != [] && Slug(p.url).value in solved
    ensures p.url != [] && Slug(p.url).value in solved ==> IsSolved(p, solved)
  {
    match Slug(p.url)
    case Some(slug) => slug in solved
    case None => false
  }

  /** A successful refresh alone decides which problems are solved: exactly
      those whose slug is the title slug of some returned submission. */
  lemma SolvedAfterRefresh(p: Problem, prior: set<string>, list: seq<Submission>)
    ensures IsSolved(p, NextSolved(prior, Submissions(list))) <==>
      p.url != [] && exists i :: 0 <= i < |list| && list[i].titleSlug == Slug(p.url).value
  {
  }

  /** A catalog entry written with one trailing '/' and the same entry
      without it are solved or unsolved together. */
  lemma SolvedIgnoresTrailingSlash(p: Problem, q: Problem, solved: set<string>)
    requires q.url != [] && q.url[|q.url| - 1] != Slash
    requires p.url == q.url + [Slash]
    ensures IsSolved(p, solved) <==> IsSolved(q, solved)
  {
    SlugIgnoresOneTrailingSlash(q.url);
  }

  /** One rendered entry of the problem list. */
  datatype Row = Row(problem: Problem, solved: bool)

  /** The entries of a problem list, in catalog order, each marked solved or
      not. */
  function Rows(problems: seq<Problem>, solved: set<string>): (rows: seq<Row>)
  {
    seq(|problems|, i requires 0 <= i < |problems| => Row(problems[i], IsSolved(problems[i], solved)))
  }

  class App {
    var data: Option<Catalog>
    var selectedPhase: string
    var selectedSubCategory: string
    var solvedSlugs: set<string>

    /** The selection always names entries of the loaded catalog: a phase
        can only be picked from the catalog's phases, and a subcategory only
        from the chosen phase's subcategories, once a phase is chosen. */
    ghost predicate Valid()
      reads this
    {
      && (selectedPhase != [] ==> data.Some? && selectedPhase in data.value)
      && (selectedSubCategory != [] ==>
            selectedPhase != [] && data.Some? && selectedPhase in data.value &&
            selectedSubCategory in data.value[selectedPhase])
    }

    /** The component as first rendered: nothing loaded, nothing chosen,
        nothing solved. */
    constructor ()
      ensures Valid()
      ensures data == None && selectedPhase == [] && selectedSubCategory == []
      ensures solvedSlugs == {}
      ensures forall p :: !IsSolved(p, solvedSlugs)
    {
      data := None;
      selectedPhase := [];
      selectedSubCategory := [];
      solvedSlugs := {};
    }

    /** The subcategory dropdown is rendered once a phase is chosen and the
        catalog is loaded; while the selection is valid the chosen phase's
        subcategories exist then. */
    predicate ShowsSubCategorySelector()
      reads this
      ensures ShowsSubCategorySelector() ==> data.Some?
      ensures Valid() && ShowsSubCategorySelector() ==> selectedPhase in data.value
    {
      selectedPhase != [] && data.Some?
    }

    /** The problem list is rendered once a subcategory is chosen and the
        catalog is loaded. While the selection is valid it is never shown
        without the subcategory dropdown above it, and the list it shows
        exists in the catalog. */
    predicate ShowsProblemList()
      reads this
      ensures Valid() && ShowsProblemList() ==> ShowsSubCategorySelector()
      ensures Valid() && ShowsProblemList() ==>
        selectedPhase in data.value && selectedSubCategory in data.value[selectedPhase]
    {
      selectedSubCategory != [] && data.Some?
    }

    /** The values the phase dropdown offers: the placeholder "" and, once
        the catalog is loaded, each of its phases. While the selection is
        valid the dropdown's current value is one of them. */
    predicate PhaseOffered(value: string)
      reads this
      ensures value == [] ==> PhaseOffered(value)
      ensures data.None? ==> (PhaseOffered(value) <==> value == [])
      ensures data.Some? && value in data.value ==> PhaseOffered(value)
      ensures PhaseOffered(value) && value != [] ==> data.Some? && value in data.value
      ensures Valid() && value == selectedPhase ==> PhaseOffered(value)
    {
      value == [] || (data.Some? && value in data.value)
    }

    /** The values the subcategory dropdown offers: the placeholder "" and
        each subcategory of the chosen phase. While the selection is valid
        and the dropdown is shown, its current value is one of them. */
    predicate SubCategoryOffered(value: string)
      reads this
      ensures value == [] ==> SubCategoryOffered(value)
      ensures Valid() && ShowsSubCategorySelector() && value in data.value[selectedPhase] ==>
        SubCategoryOffered(value)
      ensures Valid() && ShowsSubCategorySelector() && SubCategoryOffered(value) && value != [] ==>
        value in data.value[selectedPhase]
      ensures Valid() && ShowsSubCategorySelector() && value == selectedSubCategory ==>
        SubCategoryOffered(value)
    {
      value == [] || (data.Some? && selectedPhase in data.value && value in data.value[selectedPhase])
    }

    /** The catalog request settles: on success the catalog is stored, on
        failure the component stays unloaded. It runs once, on mount. */
    method ApplyCatalogResponse(response: CatalogResponse)
      requires Valid() && data.None?
      modifies this`data
      ensures Valid()
      ensures data == if response.CatalogLoaded? then Some(response.catalog) else None
      ensures selectedPhase == old(selectedPhase) && selectedSubCategory == old(selectedSubCategory)
      ensures solvedSlugs == old(solvedSlugs)
    {
      match response
      case CatalogLoaded(catalog) =>
        data := Some(catalog);
      case CatalogFailed =>
    }

    /** The solved-problems request settles: errors and exceptions leave the
        solved set as it was, a list of submissions replaces it with the
        set of their title slugs. */
    method ApplySolvedResponse(response: SolvedResponse)
      requires Valid()
      modifies this`solvedSlugs
      ensures Valid()
      ensures solvedSlugs == NextSolved(old(solvedSlugs), response)
      ensures response.Submissions? ==> solvedSlugs == SlugSet(response.list)
      ensures !response.Submissions? ==> solvedSlugs == old(solvedSlugs)
      ensures data == old(data) && selectedPhase == old(selectedPhase)
      ensures selectedSubCategory == old(selectedSubCategory)
    {
      if response.GraphQLErrors? {
        return;
      }
      match response
      case Submissions(list) =>
        solvedSlugs := SlugSet(list);
      case Thrown =>
    }

    /** A new phase is chosen: it is stored and the subcategory is cleared,
        so the problem list disappears until a subcategory is chosen. */
    method HandlePhaseChange(value: string)
      requires Valid() && PhaseOffered(value)
      modifies this`selectedPhase, this`selectedSubCategory
      ensures Valid()
      ensures selectedPhase == value && selectedSubCategory == []
      ensures !ShowsProblemList()
      ensures ShowsSubCategorySelector() <==> value != [] && data.Some?
      ensures data == old(data) && solvedSlugs == old(solvedSlugs)
    {
      selectedPhase := value;
      selectedSubCategory := [];
    }

    /** A new subcategory is chosen: only the subcategory changes. */
    method HandleSubCategoryChange(value: string)
      requires Valid() && ShowsSubCategorySelector() && SubCategoryOffered(value)
      modifies this`selectedSubCategory
      ensures Valid()
      ensures selectedSubCategory == value
      ensures ShowsProblemList() <==> value != []
      ensures selectedPhase == old(selectedPhase)
      ensures data == old(data) && solvedSlugs == old(solvedSlugs)
    {
      selectedSubCategory := value;
    }

    /** The problem list as rendered: the chosen subcategory's problems in
        catalog order, each marked solved exactly when its slug is in the
        solved set. */
    function ProblemRows(): (rows: seq<Row>)
      reads this
      requires Valid() && ShowsProblemList()
      ensures var problems := data.value[selectedPhase][selectedSubCategory];
        |rows| == |problems| &&
        forall i :: 0 <= i < |rows| ==>
          rows[i].problem == problems[i] && (rows[i].solved <==> IsSolved(problems[i], solvedSlugs))
    {
      Rows(data.value[selectedPhase][selectedSubCategory], solvedSlugs)
    }
  }
}
