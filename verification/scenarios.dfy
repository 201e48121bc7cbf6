/** Concrete snapshots: the comparator unit test and a three-node chain. */
module Scenarios {
  import opened Wrappers
  import opened Strings
  import opened Manifest
  import opened Closure
  import opened Selection

  function Model(checksum: string, rawCode: string, dependsOn: set<string>): Node
  {
    Node("test", "model", {}, FileHash("sha256", checksum), rawCode, dependsOn)
  }

  const Model1: string := "model.test.model1"
  const Model2: string := "model.test.model2"

  const TestBaseline: Snapshot := map[Model1 := Model("abc123", "select 1 as id", {})]
  const TestCurrent: Snapshot := map[
    Model1 := Model("xyz789", "select 2 as id", {}),
    Model2 := Model("def456", "select 3 as id", {})]

  /** The comparator unit test: the edited model is modified and the new one
      is added (and, being new, modified as well). */
  lemma ComparatorTestExample()
    ensures Model1 in ModifiedNodes(TestBaseline, TestCurrent)
    ensures Model2 in AddedNodes(TestBaseline, TestCurrent)
    ensures ModifiedNodes(TestBaseline, TestCurrent) == {Model1, Model2}
    ensures RemovedNodes(TestBaseline, TestCurrent) == {}
  {
    assert Model1 != Model2 by {
      assert Model1[16] != Model2[16];
    }
    assert TestBaseline[Model1].checksum != TestCurrent[Model1].checksum by {
      assert "abc123"[0] != "xyz789"[0];
    }
  }

  const A: string := "model.shop.a"
  const B: string := "model.shop.b"
  const C: string := "model.shop.c"

  const ChainBaseline: Snapshot := map[A := Model("h1", "a", {}), B := Model("hb", "b", {A}), C := Model("hc", "c", {B})]
  const ChainCurrent: Snapshot := map[A := Model("h2", "a", {}), B := Model("hb", "b", {A}), C := Model("hc", "c", {B})]
  const ChainSelector: Selector := Selector(ChainCurrent, Some(Comparator(ChainBaseline, ChainCurrent)))

  lemma ChainIdsDistinct()
    ensures A != B && B != C && A != C
  {
    assert A[11] == 'a' && B[11] == 'b' && C[11] == 'c';
  }

  /** Only the edited node of the chain is modified. */
  lemma ChainModified()
    ensures ModifiedNodes(ChainBaseline, ChainCurrent) == {A}
  {
    ChainIdsDistinct();
    assert "h1"[1] != "h2"[1];
  }

  /** Downstream of the edited node are the two nodes depending on it. */
  lemma ChainDownstream()
    ensures Downstream(ChainCurrent, {A}) == {B, C}
  {
    ChainIdsDistinct();
    var g := ChainCurrent;
    assert IsChain(g, [A, B]);
    assert IsChain(g, [A, B, C]);
    assert [A, B, C][2] == C;
    forall id | id in Downstream(g, {A})
      ensures id == B || id == C
    {
      var p :| IsChain(g, p) && p[0] in {A} && p[|p| - 1] == id;
      assert DependsOn(g, p[|p| - 1], p[|p| - 2]);
    }
  }

  /** `state:modified` selects the edited node. */
  lemma ChainStateModified()
    ensures SelectNodes(ChainSelector, Some(StateModified), None, None) == Success({A})
  {
    var s := ChainSelector;
    NoFiltersKeepBase(s, Some(StateModified));
    assert Contains(StateModified, StateModified);
    assert !Contains(StateModified, StateModifiedPlus);
    StateModifiedSelectsModified(s, s.comparator.value, StateModified);
    ChainModified();
  }

  /** `state:modified+` adds the nodes downstream of the edited node. */
  lemma ChainStateModifiedPlus()
    ensures SelectNodes(ChainSelector, Some(StateModifiedPlus), None, None) == Success({A, B, C})
  {
    var s := ChainSelector;
    NoFiltersKeepBase(s, Some(StateModifiedPlus));
    assert StateModified <= StateModifiedPlus;
    assert Contains(StateModifiedPlus, StateModifiedPlus);
    StateModifiedPlusSelectsDownstream(s, s.comparator.value, StateModifiedPlus);
    ChainModified();
    ChainDownstream();
    assert {A} + {B, C} == {A, B, C};
  }

  /** No id of the chain is long enough to contain `state:modified`. */
  lemma ChainNoStateName()
    ensures ApplySelector(ChainCurrent, StateModified) == {}
  {
    assert |A| < |StateModified| && |B| < |StateModified| && |C| < |StateModified|;
    ShortIdsNoStateName(ChainCurrent);
  }

  /** `state:modified` as a name match selects nothing when every id is
      shorter than it. */
  lemma ShortIdsNoStateName(g: Snapshot)
    requires forall id | id in g :: |id| < |StateModified|
    ensures ApplySelector(g, StateModified) == {}
  {
    ExcludedStateIsNameMatch(g, StateModified);
    forall id | id in g
      ensures !Contains(LastSegment(id), StateModified)
    {
      ShorterNotContained(LastSegment(id), StateModified);
    }
  }

  /** Excluding the same state selector does not empty the selection, because
      the exclude expression is a name match. */
  lemma ChainExcludeStateKeepsModified()
    ensures SelectNodes(ChainSelector, Some(StateModified), Some(StateModified), None) == Success({A})
  {
    var s := ChainSelector;
    ChainStateModified();
    NoFiltersKeepBase(s, Some(StateModified));
    ChainNoStateName();
    assert Exclude(s.graph, {A}, Some(StateModified)) == {A};
  }

  /** The integration test's check: every node `resource_type:model` selects
      is a model, and every model is selected, for any snapshot. */
  lemma ModelsSelectsOnlyModels(s: Selector)
    ensures SelectNodes(s, Some("resource_type:model"), None, None).Success?
    ensures forall id :: id in SelectNodes(s, Some("resource_type:model"), None, None).value <==>
      id in s.graph && s.graph[id].resourceType == "model"
  {
    assert ResourceTypePrefix + "model" == "resource_type:model";
    assert StateModified[2] == 'a';
    assert 'a' !in ResourceTypePrefix + "model";
    MissingCharNotContained(ResourceTypePrefix + "model", StateModified, 'a');
    ResourceTypeRequestSelectsType(s, "model");
  }
}
