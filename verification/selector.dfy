/** The selector engine: turns a select / exclude / packages request into a
    set of node ids of one snapshot. */
module Selection {
  import opened Wrappers
  import opened Strings
  import opened Manifest
  import opened Closure

  const StateModified: string := "state:modified"
  const StateModifiedPlus: string := "state:modified+"
  const StatePrefix: string := "state:"
  const ResourceTypePrefix: string := "resource_type:"
  const TagPrefix: string := "tag:"

  /** The error raised when a state selector is used without a comparison. */
  datatype SelectError = MissingComparison

  /** A selector over `graph`, with the comparison state selectors need. */
  datatype Selector = Selector(graph: Snapshot, comparator: Option<Comparator>)

  /** Python truthiness of an optional string: present and not empty. */
  predicate Given(e: Option<string>)
  {
    e.Some? && e.value != []
  }

  /** Nodes of the given resource type. */
  function ByResourceType(g: Snapshot, value: string): set<string>
  {
    set id | id in g && g[id].resourceType == value
  }

  /** Nodes carrying the given tag. */
  function ByTag(g: Snapshot, value: string): set<string>
  {
    set id | id in g && value in g[id].tags
  }

  /** Nodes whose last id segment contains `text`. */
  function ByName(g: Snapshot, text: string): set<string>
  {
    set id | id in g && Contains(LastSegment(id), text)
  }

  /** One selector expression, tried in fixed order: resource type prefix, tag
      prefix, `+` expansion (unless it starts with `state:`), name match. */
  function ApplySelector(g: Snapshot, selector: string): (r: set<string>)
    ensures r <= g.Keys
    decreases |selector|
  {
    if ResourceTypePrefix <= selector then
      ByResourceType(g, selector[|ResourceTypePrefix|..])
    else if TagPrefix <= selector then
      ByTag(g, selector[|TagPrefix|..])
    else if '+' in selector && !(StatePrefix <= selector) then
      var base := ApplySelector(g, RemoveAll(selector, '+'));
      base + Downstream(g, base)
    else
      ByName(g, selector)
  }

  /** The selection before exclusion and package filtering. */
  function BaseSelection(s: Selector, select: Option<string>): (r: Result<set<string>, SelectError>)
    ensures r.Failure? <==> Given(select) && Contains(select.value, StateModified) && s.comparator.None?
    ensures r.Success? && (s.comparator.None? || s.comparator.value.current == s.graph) ==> r.value <= s.graph.Keys
    ensures Given(select) && !Contains(select.value, StateModified) ==> r == Success(ApplySelector(s.graph, select.value))
  {
    if Given(select) && Contains(select.value, StateModified) then
      match s.comparator
      case None => Failure(MissingComparison)
      case Some(c) =>
        var modified := ModifiedNodes(c.baseline, c.current);
        if Contains(select.value, StateModifiedPlus) then
          Success(modified + Downstream(s.graph, modified))
        else
          Success(modified)
    else if Given(select) then
      Success(ApplySelector(s.graph, select.value))
    else
      Success(s.graph.Keys)
  }

  /** Drops what the exclude expression selects, when one is given. */
  function Exclude(g: Snapshot, selected: set<string>, exclude: Option<string>): (r: set<string>)
    ensures r <= selected
    ensures Given(exclude) ==> r !! ApplySelector(g, exclude.value)
    ensures Given(exclude) ==> forall id :: id in selected && id !in ApplySelector(g, exclude.value) ==> id in r
    ensures !Given(exclude) ==> r == selected
  {
    if Given(exclude) then selected - ApplySelector(g, exclude.value) else selected
  }

  /** Keeps the ids of nodes in one of the listed packages, when the list is
      present and not empty. */
  function FilterPackages(g: Snapshot, selected: set<string>, packages: Option<seq<string>>): (r: set<string>)
    ensures r <= selected
    ensures packages.Some? && packages.value != [] ==>
      r <= g.Keys && forall id :: id in r ==> g[id].packageName in packages.value
  {
    if packages.Some? && packages.value != [] then
      set id | id in selected && id in g && g[id].packageName in packages.value
    else
      selected
  }

  /** The whole request: base selection, minus the exclusion, restricted to
      the packages. */
  function SelectNodes(s: Selector, select: Option<string>, exclude: Option<string>, packages: Option<seq<string>>)
    : (r: Result<set<string>, SelectError>)
    ensures r.Failure? <==> Given(select) && Contains(select.value, StateModified) && s.comparator.None?
    ensures r.Success? ==> r.value <= BaseSelection(s, select).value
    ensures r.Success? && (s.comparator.None? || s.comparator.value.current == s.graph) ==> r.value <= s.graph.Keys
    ensures r.Success? ==> forall id :: id in r.value <==>
      id in BaseSelection(s, select).value
      && (Given(exclude) ==> id !in ApplySelector(s.graph, exclude.value))
      && (packages.Some? && packages.value != [] ==> id in s.graph && s.graph[id].packageName in packages.value)
  {
    match BaseSelection(s, select)
    case Failure(e) => Failure(e)
    case Success(base) => Success(FilterPackages(s.graph, Exclude(s.graph, base, exclude), packages))
  }

  /** Without a select expression the base selection is every node. */
  lemma NoSelectorSelectsAll(s: Selector, select: Option<string>)
    requires !Given(select)
    ensures BaseSelection(s, select) == Success(s.graph.Keys)
    ensures SelectNodes(s, select, None, None) == Success(s.graph.Keys)
  {
  }

  /** Without exclude and packages the result is the base selection. */
  lemma NoFiltersKeepBase(s: Selector, select: Option<string>)
    ensures SelectNodes(s, select, None, None) == BaseSelection(s, select)
  {
  }

  /** A string holding `a + b` holds `a`. */
  lemma ContainsPrefixPart(text: string, a: string, b: string)
    requires Contains(text, a + b)
    ensures Contains(text, a)
  {
    var i :| OccursAt(a + b, text, i);
    assert text[i..i + |a|] == (a + b)[..|a|] == a;
    assert OccursAt(a, text, i);
  }

  /** A state selector without a comparison is an error. */
  lemma StateSelectorNeedsComparison(s: Selector, select: string, exclude: Option<string>, packages: Option<seq<string>>)
    requires Contains(select, StateModified) && s.comparator.None?
    ensures SelectNodes(s, Some(select), exclude, packages) == Failure(MissingComparison)
  {
  }

  /** `state:modified` without the `+` selects exactly the modified ids. */
  lemma StateModifiedSelectsModified(s: Selector, c: Comparator, select: string)
    requires s.comparator == Some(c)
    requires Contains(select, StateModified) && !Contains(select, StateModifiedPlus)
    ensures BaseSelection(s, Some(select)) == Success(ModifiedNodes(c.baseline, c.current))
  {
  }

  /** `state:modified+` selects the modified ids and everything downstream of them. */
  lemma StateModifiedPlusSelectsDownstream(s: Selector, c: Comparator, select: string)
    requires s.comparator == Some(c)
    requires Contains(select, StateModifiedPlus)
    ensures BaseSelection(s, Some(select))
         == Success(ModifiedNodes(c.baseline, c.current) + Downstream(s.graph, ModifiedNodes(c.baseline, c.current)))
    ensures forall id :: id in BaseSelection(s, Some(select)).value <==>
      id in ModifiedNodes(c.baseline, c.current) || Reaches(s.graph, ModifiedNodes(c.baseline, c.current), id)
  {
    assert StateModifiedPlus == StateModified + "+";
    ContainsPrefixPart(select, StateModified, "+");
  }

  /** Exclusion and package filtering keep the subset order of selections. */
  lemma FiltersMonotone(g: Snapshot, a: set<string>, b: set<string>, exclude: Option<string>, packages: Option<seq<string>>)
    requires a <= b
    ensures FilterPackages(g, Exclude(g, a, exclude), packages) <= FilterPackages(g, Exclude(g, b, exclude), packages)
  {
  }

  /** With the same exclusion and packages, `state:modified+` selects at least
      what `state:modified` selects. */
  lemma StatePlusIncludesState(s: Selector, exclude: Option<string>, packages: Option<seq<string>>)
    requires s.comparator.Some?
    ensures SelectNodes(s, Some(StateModifiedPlus), exclude, packages).Success?
    ensures SelectNodes(s, Some(StateModified), exclude, packages).Success?
    ensures SelectNodes(s, Some(StateModified), exclude, packages).value
         <= SelectNodes(s, Some(StateModifiedPlus), exclude, packages).value
  {
    var c := s.comparator.value;
    assert StateModified <= StateModifiedPlus;
    assert Contains(StateModifiedPlus, StateModified);
    assert Contains(StateModified, StateModified);
    assert !Contains(StateModified, StateModifiedPlus);
    StateModifiedSelectsModified(s, c, StateModified);
    StateModifiedPlusSelectsDownstream(s, c, StateModifiedPlus);
    var m := ModifiedNodes(c.baseline, c.current);
    FiltersMonotone(s.graph, m, m + Downstream(s.graph, m), exclude, packages);
  }

  /** `resource_type:v` selects exactly the nodes of type `v`. */
  lemma ResourceTypeSelectsExactly(g: Snapshot, v: string)
    ensures forall id :: id in ApplySelector(g, ResourceTypePrefix + v) <==> id in g && g[id].resourceType == v
  {
    assert ResourceTypePrefix <= ResourceTypePrefix + v;
    assert (ResourceTypePrefix + v)[|ResourceTypePrefix|..] == v;
  }

  /** `tag:v` selects exactly the nodes tagged `v`; a `+` in `v` is part of
      the tag, because the tag prefix is tried before expansion. */
  lemma TagSelectsExactly(g: Snapshot, v: string)
    ensures forall id :: id in ApplySelector(g, TagPrefix + v) <==> id in g && v in g[id].tags
  {
    var e := TagPrefix + v;
    assert e[0] == 't' != ResourceTypePrefix[0];
    assert TagPrefix <= e;
    assert e[|TagPrefix|..] == v;
  }

  /** Without a `+` an expression is evaluated in one step, never expanded. */
  lemma PlainSelectorNotExpanded(g: Snapshot, e: string)
    requires '+' !in e
    ensures ApplySelector(g, e)
         == if ResourceTypePrefix <= e then ByResourceType(g, e[|ResourceTypePrefix|..])
            else if TagPrefix <= e then ByTag(g, e[|TagPrefix|..])
            else ByName(g, e)
  {
  }

  /** An untyped, non-state expression with `+` selects what the expression
      with every `+` removed selects, plus everything downstream of that; the
      inner evaluation is not expanded again. */
  lemma PlusSelectsDownstream(g: Snapshot, e: string)
    requires '+' in e
    requires !(ResourceTypePrefix <= e) && !(TagPrefix <= e) && !(StatePrefix <= e)
    ensures '+' !in RemoveAll(e, '+')
    ensures var base := ApplySelector(g, RemoveAll(e, '+'));
      forall id :: id in ApplySelector(g, e) <==> id in base || Reaches(g, base, id)
  {
  }

  /** Name match: an id is selected exactly when the expression occurs in the
      last dot-separated segment of the id. */
  lemma NameMatchExactly(g: Snapshot, e: string)
    requires !(ResourceTypePrefix <= e) && !(TagPrefix <= e)
    requires '+' !in e || StatePrefix <= e
    ensures forall id :: id in ApplySelector(g, e) <==>
      id in g && NameMatches(e, id)
  {
    NameMatchIsByName(g, e);
    ByNameExactly(g, e);
  }

  /** `ByName` holds exactly the ids whose last segment contains the text. */
  lemma ByNameExactly(g: Snapshot, e: string)
    ensures forall id :: id in ByName(g, e) <==> id in g && NameMatches(e, id)
  {
    forall id
      ensures id in ByName(g, e) <==> id in g && NameMatches(e, id)
    {
      ByNameMember(g, e, id);
    }
  }

  /** The expression occurs in the last dot-separated segment of `id`. */
  ghost predicate NameMatches(e: string, id: string)
  {
    exists i :: OccursAt(e, LastSegment(id), i)
  }

  /** In the name-match case the expression is evaluated by `ByName`. */
  lemma NameMatchIsByName(g: Snapshot, e: string)
    requires !(ResourceTypePrefix <= e) && !(TagPrefix <= e)
    requires '+' !in e || StatePrefix <= e
    ensures ApplySelector(g, e) == ByName(g, e)
  {
    if StatePrefix <= e {
      ExcludedStateIsNameMatch(g, e);
    } else {
      PlainSelectorNotExpanded(g, e);
    }
  }

  lemma ByNameMember(g: Snapshot, e: string, id: string)
    ensures id in ByName(g, e) <==> id in g && NameMatches(e, id)
  {
    assert id in ByName(g, e) <==> id in g && Contains(LastSegment(id), e);
  }

  /** Outside the select position there is no state handling: an expression
      starting with `state:`, such as `state:modified` or `state:modified+`
      given as exclude, is a name match. */
  lemma ExcludedStateIsNameMatch(g: Snapshot, e: string)
    requires StatePrefix <= e
    ensures ApplySelector(g, e) == ByName(g, e)
  {
    assert e[0] == 's';
    assert !(ResourceTypePrefix <= e) by {
      assert ResourceTypePrefix[0] == 'r';
    }
    assert !(TagPrefix <= e) by {
      assert TagPrefix[0] == 't';
    }
  }

  /** A non-empty package list keeps exactly the selected nodes of the listed
      packages; a missing or empty list changes nothing. */
  lemma PackageFilterExactly(g: Snapshot, selected: set<string>, packages: seq<string>)
    ensures packages != [] ==> forall id :: id in FilterPackages(g, selected, Some(packages)) <==>
      id in selected && id in g && g[id].packageName in packages
    ensures FilterPackages(g, selected, Some([])) == selected
    ensures FilterPackages(g, selected, None) == selected
  {
  }

  /** Filtering on a package no node belongs to selects nothing. */
  lemma UnknownPackageSelectsNothing(s: Selector, select: Option<string>, exclude: Option<string>, p: string)
    requires forall id :: id in s.graph ==> s.graph[id].packageName != p
    requires BaseSelection(s, select).Success?
    ensures SelectNodes(s, select, exclude, Some([p])) == Success({})
  {
    var base := BaseSelection(s, select).value;
    var kept := Exclude(s.graph, base, exclude);
    forall id | id in kept && id in s.graph
      ensures s.graph[id].packageName !in [p]
    {
    }
    assert FilterPackages(s.graph, kept, Some([p])) == {};
  }

  /** Excluding the very expression that was selected leaves nothing, for
      every expression that is not a state selector. */
  lemma ExcludeSameSelectsNothing(s: Selector, e: string, packages: Option<seq<string>>)
    requires e != [] && !Contains(e, StateModified)
    ensures SelectNodes(s, Some(e), Some(e), packages) == Success({})
  {
    var selected := ApplySelector(s.graph, e);
    assert BaseSelection(s, Some(e)) == Success(selected);
    assert Exclude(s.graph, selected, Some(e)) == {};
    assert FilterPackages(s.graph, {}, packages) == {};
  }

  /** Selecting and excluding `state:modified` keeps exactly the modified ids
      whose last segment does not contain the text `state:modified`: only the
      select position gets state handling, the exclude is a name match. */
  lemma ExcludeStateIsNameFilter(s: Selector, c: Comparator)
    requires s.comparator == Some(c)
    ensures SelectNodes(s, Some(StateModified), Some(StateModified), None).Success?
    ensures forall id :: id in SelectNodes(s, Some(StateModified), Some(StateModified), None).value <==>
      id in ModifiedNodes(c.baseline, c.current) && !(id in s.graph && NameMatches(StateModified, id))
  {
    assert Contains(StateModified, StateModified) by {
      assert StateModified <= StateModified;
    }
    assert !Contains(StateModified, StateModifiedPlus) by {
      ShorterNotContained(StateModified, StateModifiedPlus);
    }
    StateModifiedSelectsModified(s, c, StateModified);
    assert StatePrefix <= StateModified;
    ExcludedStateIsNameMatch(s.graph, StateModified);
    ByNameExactly(s.graph, StateModified);
  }

  /** At the request level, `resource_type:v` (when it does not itself
      contain `state:modified`) returns exactly the nodes of type `v`. */
  lemma ResourceTypeRequestSelectsType(s: Selector, v: string)
    requires !Contains(ResourceTypePrefix + v, StateModified)
    ensures SelectNodes(s, Some(ResourceTypePrefix + v), None, None).Success?
    ensures forall id :: id in SelectNodes(s, Some(ResourceTypePrefix + v), None, None).value <==>
      id in s.graph && s.graph[id].resourceType == v
  {
    NoFiltersKeepBase(s, Some(ResourceTypePrefix + v));
    ResourceTypeSelectsExactly(s.graph, v);
  }
}
