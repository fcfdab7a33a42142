/**
 * The projects page: a case-insensitive search over the project list, a
 * year selection toggled by clicks on the pie chart or its legend, and the
 * per-year counts the pie is drawn from.
 */
module Projects {
  import opened Wrappers
  import opened Text
  import opened Seqs

  /** One entry of `projects.json`. */
  datatype Project = Project(title: string, description: string, year: string)

  function YearOf(p: Project): string {
    p.year
  }

  // ------------------------------------------------------------------ search

  /** The search test, for a term already lower-cased. */
  predicate MatchesTerm(p: Project, term: string) {
    Contains(Lower(p.title), term) || Contains(Lower(p.description), term)
  }

  function Matches(term: string): Project -> bool {
    (p: Project) => MatchesTerm(p, term)
  }

  function InYear(year: string): Project -> bool {
    (p: Project) => p.year == year
  }

  /** `projects.filter(...)` for the text typed into the search bar. */
  function Search(projects: seq<Project>, value: string): seq<Project> {
    Filter(projects, Matches(Lower(value)))
  }

  /** The projects the input handler renders: the search result, narrowed to the selected year when one is set. */
  function SearchView(projects: seq<Project>, selectedYear: Option<string>, value: string): seq<Project> {
    var found := Search(projects, value);
    if Truthy(selectedYear) then Filter(found, InYear(selectedYear.value)) else found
  }

  /** The projects a click handler renders: the whole list, narrowed to the selected year when one is set. */
  function YearView(projects: seq<Project>, selectedYear: Option<string>): seq<Project> {
    if Truthy(selectedYear) then Filter(projects, InYear(selectedYear.value)) else projects
  }

  /**
   * A project is found iff its lower-cased title or description contains the
   * lower-cased term; found projects keep their multiplicity and their order.
   */
  lemma SearchSpec(projects: seq<Project>, value: string)
    ensures forall p :: p in Search(projects, value) <==>
      p in projects && (Contains(Lower(p.title), Lower(value)) || Contains(Lower(p.description), Lower(value)))
    ensures forall p ::
      multiset(Search(projects, value))[p] == (if MatchesTerm(p, Lower(value)) then multiset(projects)[p] else 0)
  {
    FilterMembership(projects, Matches(Lower(value)));
    FilterMultiset(projects, Matches(Lower(value)));
  }

  /** An empty search keeps every project. */
  lemma SearchEmpty(projects: seq<Project>)
    ensures Search(projects, "") == projects
  {
    assert Lower("") == "";
    forall i | 0 <= i < |projects| ensures Matches("")(projects[i]) {
      ContainsEmpty(Lower(projects[i].title));
    }
    FilterAll(projects, Matches(""));
  }

  /** The year narrows the search result only when the selection is truthy. */
  lemma SearchViewSpec(projects: seq<Project>, selectedYear: Option<string>, value: string)
    ensures !Truthy(selectedYear) ==> SearchView(projects, selectedYear, value) == Search(projects, value)
    ensures Truthy(selectedYear) ==> forall p :: p in SearchView(projects, selectedYear, value) <==>
      p in Search(projects, value) && p.year == selectedYear.value
  {
    if Truthy(selectedYear) {
      FilterMembership(Search(projects, value), InYear(selectedYear.value));
    }
  }

  /**
   * A click ignores the search term: every project of the selected year is
   * shown, so the view after a click holds every view the search could give.
   */
  lemma YearViewSpec(projects: seq<Project>, selectedYear: Option<string>, value: string)
    ensures !Truthy(selectedYear) ==> YearView(projects, selectedYear) == projects
    ensures Truthy(selectedYear) ==> forall p :: p in YearView(projects, selectedYear) <==>
      p in projects && p.year == selectedYear.value
    ensures forall p :: p in SearchView(projects, selectedYear, value) ==> p in YearView(projects, selectedYear)
  {
    SearchViewSpec(projects, selectedYear, value);
    FilterMembership(projects, Matches(Lower(value)));
    if Truthy(selectedYear) {
      FilterMembership(projects, InYear(selectedYear.value));
    }
  }

  // ------------------------------------------------------------------ toggle

  /** `selectedYear === year ? null : year`. */
  function Toggle(selectedYear: Option<string>, year: string): (r: Option<string>)
    ensures r.None? <==> selectedYear == Some(year)
    ensures r.Some? ==> r.value == year
  {
    if selectedYear == Some(year) then None else Some(year)
  }

  /** Clicking a year twice restores the selection exactly when nothing, or that year, was selected. */
  lemma ToggleTwice(selectedYear: Option<string>, year: string)
    ensures Toggle(Toggle(selectedYear, year), year) == selectedYear <==> selectedYear == None || selectedYear == Some(year)
  {
  }

  // --------------------------------------------------------------------- pie

  /** An entry `{label: year, value: count}` of the pie data; `label` is a keyword here, so the field is `year`. */
  datatype PieSlice = PieSlice(year: string, value: nat)

  /** `d3.rollups(currentProjects, v => v.length, d => d.year)`, mapped to slices. */
  function PieData(ps: seq<Project>): seq<PieSlice> {
    var years := Keys(ps, YearOf);
    seq(|years|, i requires 0 <= i < |years| => PieSlice(years[i], |Members(ps, YearOf, years[i])|))
  }

  function Labels(pie: seq<PieSlice>): seq<string> {
    seq(|pie|, i requires 0 <= i < |pie| => pie[i].year)
  }

  function Values(pie: seq<PieSlice>): seq<int> {
    seq(|pie|, i requires 0 <= i < |pie| => pie[i].value)
  }

  /**
   * One slice per distinct year of the projects, no two with the same year;
   * every count is positive and counts the projects of its year, and the
   * counts add up to the number of projects.
   */
  lemma PieDataSpec(ps: seq<Project>)
    ensures var pie := PieData(ps);
      && (forall i, j :: 0 <= i < j < |pie| ==> pie[i].year != pie[j].year)
      && (forall y :: y in Labels(pie) <==> exists j :: 0 <= j < |ps| && ps[j].year == y)
      && (forall i :: 0 <= i < |pie| ==> 0 < pie[i].value == |Filter(ps, InYear(pie[i].year))|)
      && Sum(Values(pie)) == |ps|
  {
    var pie, years := PieData(ps), Keys(ps, YearOf);
    KeysSpec(ps, YearOf);
    assert Labels(pie) == years;
    forall y ensures y in years <==> exists j :: 0 <= j < |ps| && ps[j].year == y {
      if y in years {
        var n := GroupHead(ps, YearOf, y);
      }
    }
    forall i | 0 <= i < |pie| ensures 0 < pie[i].value == |Filter(ps, InYear(pie[i].year))| {
      assert years[i] in years;
      MembersAreFilter(ps, years[i]);
    }
    PartitionSum(ps, YearOf);
    assert Values(pie) == GroupSizes(ps, YearOf, years);
  }

  /** The members of a year's group are the projects of that year. */
  lemma {:induction false} MembersAreFilter(ps: seq<Project>, y: string)
    ensures Members(ps, YearOf, y) == Filter(ps, InYear(y))
    decreases |ps|
  {
    if ps != [] {
      var init, last := ps[..|ps| - 1], ps[|ps| - 1];
      assert ps == init + [last];
      MembersAreFilter(init, y);
      FilterAppend(init, [last], InYear(y));
    }
  }

  /** Slices come in order of first appearance: those of a prefix of the projects head the list. */
  lemma PieDataOrder(ps: seq<Project>, n: nat)
    requires n <= |ps|
    ensures var a, b := PieData(ps[..n]), PieData(ps);
      |a| <= |b| && forall i :: 0 <= i < |a| ==> a[i].year == b[i].year
  {
    KeysOfPrefix(ps, YearOf, n);
  }

  /** Each slice's year first occurs at some project, and no earlier project has it. */
  lemma PieDataFirst(ps: seq<Project>, i: nat) returns (n: nat)
    requires i < |PieData(ps)|
    ensures n < |ps| && ps[n].year == PieData(ps)[i].year
    ensures forall j :: 0 <= j < n ==> ps[j].year != PieData(ps)[i].year
  {
    var years := Keys(ps, YearOf);
    assert years[i] in years;
    n := GroupHead(ps, YearOf, years[i]);
  }

  // ---------------------------------------------------------------- opacity

  /** A slice's opacity: 0.4 when a year is selected and the slice is another year's. */
  function SliceOpacity(selectedYear: Option<string>, year: string): (r: real)
    ensures r == 0.4 || r == 1.0
  {
    if Truthy(selectedYear) && year != selectedYear.value then 0.4 else 1.0
  }

  /** A legend item's opacity: 0.5 under the same condition as the slice. */
  function LegendOpacity(selectedYear: Option<string>, year: string): (r: real)
    ensures r == 0.5 || r == 1.0
  {
    if year != (if selectedYear.Some? then selectedYear.value else "") && Truthy(selectedYear) then 0.5 else 1.0
  }

  /** A legend item is marked `active` when its year is the selected one. */
  predicate LegendActive(selectedYear: Option<string>, year: string) {
    selectedYear == Some(year)
  }

  /** Under a truthy selection, a legend item is active exactly when it is not faded. */
  lemma ActiveIffUnfaded(selectedYear: Option<string>, year: string)
    requires Truthy(selectedYear)
    ensures LegendActive(selectedYear, year) <==> LegendOpacity(selectedYear, year) == 1.0
  {
  }

  /** The slice is dimmed exactly when its legend item is faded, exactly when another year is selected. */
  lemma DimmedIff(selectedYear: Option<string>, year: string)
    ensures SliceOpacity(selectedYear, year) < 1.0 <==> LegendOpacity(selectedYear, year) < 1.0
    ensures SliceOpacity(selectedYear, year) < 1.0 <==> Truthy(selectedYear) && year != selectedYear.value
  {
  }

  ghost predicate AllOfYear(ps: seq<Project>, selectedYear: Option<string>) {
    Truthy(selectedYear) ==> forall j :: 0 <= j < |ps| ==> ps[j].year == selectedYear.value
  }

  /** When every project shown is of the selected year, every slice is that year's. */
  lemma SliceOfSelectedYear(ps: seq<Project>, selectedYear: Option<string>, i: nat)
    requires AllOfYear(ps, selectedYear) && Truthy(selectedYear) && i < |PieData(ps)|
    ensures PieData(ps)[i].year == selectedYear.value
  {
    var n := PieDataFirst(ps, i);
  }

  /** ... so nothing is dimmed or faded. */
  lemma SelectedYearUndimmed(ps: seq<Project>, selectedYear: Option<string>)
    requires AllOfYear(ps, selectedYear)
    ensures forall i :: 0 <= i < |PieData(ps)| ==>
      SliceOpacity(selectedYear, PieData(ps)[i].year) == 1.0 &&
      LegendOpacity(selectedYear, PieData(ps)[i].year) == 1.0
  {
    forall i | 0 <= i < |PieData(ps)| ensures SliceOpacity(selectedYear, PieData(ps)[i].year) == 1.0 {
      if Truthy(selectedYear) {
        SliceOfSelectedYear(ps, selectedYear, i);
      }
    }
  }

  /** ... and the pie is a single slice of that year counting them all. */
  lemma SelectedYearSingleSlice(ps: seq<Project>, selectedYear: Option<string>)
    requires AllOfYear(ps, selectedYear) && Truthy(selectedYear) && ps != []
    ensures PieData(ps) == [PieSlice(selectedYear.value, |ps|)]
  {
    var y, pie, years := selectedYear.value, PieData(ps), Keys(ps, YearOf);
    KeysSpec(ps, YearOf);
    assert YearOf(ps[0]) in years;
    assert |pie| == 1 by {
      if |pie| > 1 {
        SliceOfSelectedYear(ps, selectedYear, 0);
        SliceOfSelectedYear(ps, selectedYear, 1);
      }
    }
    SliceOfSelectedYear(ps, selectedYear, 0);
    MembersAreFilter(ps, y);
    FilterAll(ps, InYear(y));
  }

  // ------------------------------------------------------------------- page

  /** The page's state: the loaded projects, `selectedYear`, and what was last rendered. */
  class Gallery {
    const projects: seq<Project>
    var selectedYear: Option<string>
    var visible: seq<Project>
    var pie: seq<PieSlice>

    /** The pie shows what is rendered, and under a truthy selection only that year is rendered. */
    ghost predicate Valid()
      reads this
    {
      && pie == PieData(visible)
      && AllOfYear(visible, selectedYear)
      && (forall j :: 0 <= j < |visible| ==> visible[j] in projects)
    }

    /** The first render: every project, nothing selected. */
    constructor (projects: seq<Project>)
      ensures this.projects == projects && selectedYear == None
      ensures visible == projects && pie == PieData(projects)
      ensures Valid()
    {
      this.projects := projects;
      selectedYear := None;
      visible := projects;
      pie := PieData(projects);
    }

    /** The search bar's `input` handler. */
    method OnSearchInput(value: string)
      requires Valid()
      modifies this
      ensures selectedYear == old(selectedYear)
      ensures visible == SearchView(projects, selectedYear, value) && pie == PieData(visible)
      ensures Valid()
    {
      var found := Search(projects, value);
      visible := if Truthy(selectedYear) then Filter(found, InYear(selectedYear.value)) else found;
      pie := PieData(visible);
      SearchSpec(projects, value);
      SearchViewSpec(projects, selectedYear, value);
      if Truthy(selectedYear) {
        FilterMembership(found, InYear(selectedYear.value));
      }
    }

    /** The `click` handler of a slice or a legend item labelled `year`. */
    method ClickYear(year: string)
      requires Valid()
      modifies this
      ensures selectedYear == Toggle(old(selectedYear), year)
      ensures visible == YearView(projects, selectedYear) && pie == PieData(visible)
      ensures Valid()
    {
      selectedYear := if selectedYear == Some(year) then None else Some(year);
      visible := if Truthy(selectedYear) then Filter(projects, InYear(selectedYear.value)) else projects;
      pie := PieData(visible);
      if Truthy(selectedYear) {
        FilterMembership(projects, InYear(selectedYear.value));
        forall j | 0 <= j < |visible| ensures visible[j].year == selectedYear.value && visible[j] in projects {
          assert visible[j] in visible;
        }
      }
    }

    /** No rendered slice is ever dimmed, and no legend item faded. */
    lemma NothingDimmed()
      requires Valid()
      ensures forall i :: 0 <= i < |pie| ==>
        SliceOpacity(selectedYear, pie[i].year) == 1.0 && LegendOpacity(selectedYear, pie[i].year) == 1.0
    {
      SelectedYearUndimmed(visible, selectedYear);
    }

    /**
     * Every rendered legend item is active under a truthy selection, and
     * none is without a selection.
     */
    lemma LegendAllActive()
      requires Valid()
      ensures Truthy(selectedYear) ==> forall i :: 0 <= i < |pie| ==> LegendActive(selectedYear, pie[i].year)
      ensures selectedYear == None ==> forall i :: 0 <= i < |pie| ==> !LegendActive(selectedYear, pie[i].year)
    {
      if Truthy(selectedYear) {
        forall i | 0 <= i < |pie| ensures LegendActive(selectedYear, pie[i].year) {
          SliceOfSelectedYear(visible, selectedYear, i);
        }
      }
    }

    /**
     * The labels that can be clicked are the rendered ones, so from no
     * selection or a truthy one, clicking a rendered year twice restores the
     * selection. The view shown afterwards is the year view of the full list
     * for that selection, not the current one: an earlier search is lost.
     */
    lemma ClickTwiceRestores(i: nat)
      requires Valid() && i < |pie|
      requires selectedYear == None || Truthy(selectedYear)
      ensures Toggle(Toggle(selectedYear, pie[i].year), pie[i].year) == selectedYear
      ensures YearView(projects, Toggle(Toggle(selectedYear, pie[i].year), pie[i].year)) == YearView(projects, selectedYear)
    {
      if Truthy(selectedYear) {
        SliceOfSelectedYear(visible, selectedYear, i);
      }
    }
  }
}
