/**
 * Table lineage over the project's dependency graph. The graph is given as it is built from the
 * models: each node's direct dependencies, its transitive dependants and dependencies, and its
 * data (name and kind).
 */
module Lineage {
  import opened Wrappers
  import opened Dicts
  import opened Dbt

  datatype DepGraph = DepGraph(
    direct: map<string, seq<string>>,
    dependants: map<string, seq<string>>,
    dependencies: map<string, seq<string>>,
    data: map<string, LineageNode>)

  /** Every node has its data and its lists, and every listed node is a node of the graph. */
  ghost predicate Closed(g: DepGraph) {
    && (forall id :: id in g.direct ==> id in g.data && id in g.dependants && id in g.dependencies)
    && (forall id, j :: id in g.direct && 0 <= j < |g.direct[id]| ==> g.direct[id][j] in g.direct)
    && (forall id, j :: id in g.dependants && 0 <= j < |g.dependants[id]| ==> g.dependants[id][j] in g.direct)
    && (forall id, j :: id in g.dependencies && 0 <= j < |g.dependencies[id]| ==> g.dependencies[id][j] in g.direct)
  }

  /** `p` follows direct dependencies from its first node to its last, over at least one edge. */
  ghost predicate IsPath(g: DepGraph, p: seq<string>) {
    |p| >= 2 && forall k :: 0 <= k < |p| - 1 ==> p[k] in g.direct && p[k + 1] in g.direct[p[k]]
  }

  /** `a` depends on `b`, directly or through other nodes. */
  ghost predicate Reaches(g: DepGraph, a: string, b: string) {
    exists p :: IsPath(g, p) && p[0] == a && p[|p| - 1] == b
  }

  /**
   * The transitive lists agree with the direct edges: a node's dependencies are exactly the nodes
   * it reaches, and its dependants exactly the nodes that reach it.
   */
  ghost predicate Transitive(g: DepGraph) {
    && (forall id, x :: id in g.dependencies ==> (x in g.dependencies[id] <==> Reaches(g, id, x)))
    && (forall id, x :: id in g.dependants ==> (x in g.dependants[id] <==> Reaches(g, x, id)))
  }

  /** A node's family: its dependants, its dependencies, then itself. */
  function Family(g: DepGraph, id: string): (r: seq<string>)
    requires Closed(g) && id in g.direct
    ensures |r| > 0 && r[|r| - 1] == id
    ensures forall j :: 0 <= j < |r| ==> r[j] in g.direct
  {
    g.dependants[id] + g.dependencies[id] + [id]
  }

  /** The data of a node's direct dependencies. */
  function DirectData(g: DepGraph, id: string): (r: seq<LineageNode>)
    requires Closed(g) && id in g.direct
    ensures |r| == |g.direct[id]|
    ensures forall j :: 0 <= j < |r| ==> r[j] == g.data[g.direct[id][j]]
  {
    seq(|g.direct[id]|, j requires 0 <= j < |g.direct[id]| => g.data[g.direct[id][j]])
  }

  /** The names of the given nodes. */
  function NamesOf(g: DepGraph, ids: seq<string>): (r: seq<string>)
    requires Closed(g) && forall j :: 0 <= j < |ids| ==> ids[j] in g.direct
    ensures |r| == |ids|
    ensures forall j :: 0 <= j < |ids| ==> r[j] == g.data[ids[j]].name
  {
    seq(|ids|, j requires 0 <= j < |ids| => g.data[ids[j]].name)
  }

  /** The direct-dependency data of each of the given nodes. */
  function DirectDataOf(g: DepGraph, ids: seq<string>): (r: seq<seq<LineageNode>>)
    requires Closed(g) && forall j :: 0 <= j < |ids| ==> ids[j] in g.direct
    ensures |r| == |ids|
    ensures forall j :: 0 <= j < |ids| ==> r[j] == DirectData(g, ids[j])
  {
    seq(|ids|, j requires 0 <= j < |ids| => DirectData(g, ids[j]))
  }

  /** `generateTableLineage`: the reduce that maps each family member's name to its direct dependencies. */
  function TableLineage(g: DepGraph, model: Model): LineageGraph
    requires Closed(g) && model.uniqueId in g.direct
  {
    var f := Family(g, model.uniqueId);
    Assign(NamesOf(g, f), DirectDataOf(g, f))
  }

  /** The names in a model's lineage are exactly the names of its family members. */
  lemma TableLineageKeys(g: DepGraph, model: Model, k: string)
    requires Closed(g) && model.uniqueId in g.direct
    ensures k in Keys(TableLineage(g, model)) <==> exists id :: id in Family(g, model.uniqueId) && g.data[id].name == k
  {
    var f := Family(g, model.uniqueId);
    AssignKeys(NamesOf(g, f), DirectDataOf(g, f), k);
    if k in NamesOf(g, f) {
      var j :| 0 <= j < |f| && NamesOf(g, f)[j] == k;
      assert f[j] in f;
    }
    if exists id :: id in f && g.data[id].name == k {
      var id :| id in f && g.data[id].name == k;
      var j :| 0 <= j < |f| && f[j] == id;
      assert NamesOf(g, f)[j] == k;
    }
  }

  /** Each name maps to the direct dependencies of a family member of that name. */
  lemma TableLineageValues(g: DepGraph, model: Model, k: string)
    requires Closed(g) && model.uniqueId in g.direct
    requires k in Keys(TableLineage(g, model))
    ensures exists id :: id in Family(g, model.uniqueId) && g.data[id].name == k && Get(TableLineage(g, model), k) == Some(DirectData(g, id))
  {
    var f := Family(g, model.uniqueId);
    AssignKeys(NamesOf(g, f), DirectDataOf(g, f), k);
    AssignValue(NamesOf(g, f), DirectDataOf(g, f), k);
    var j :| 0 <= j < |f| && NamesOf(g, f)[j] == k && Get(TableLineage(g, model), k) == Some(DirectDataOf(g, f)[j]);
    assert f[j] in f;
  }

  /**
   * A model's own entry, under its own name, is always its own direct dependencies, because the
   * model comes last in its family.
   */
  lemma OwnEntry(g: DepGraph, model: Model)
    requires Closed(g) && model.uniqueId in g.direct
    ensures Get(TableLineage(g, model), g.data[model.uniqueId].name) == Some(DirectData(g, model.uniqueId))
  {
    var f := Family(g, model.uniqueId);
    AssignLast(NamesOf(g, f), DirectDataOf(g, f), |f| - 1);
  }

  /** Every dependant and dependency of the model has an entry under its name. */
  lemma FamilyHasEntries(g: DepGraph, model: Model, id: string)
    requires Closed(g) && model.uniqueId in g.direct
    requires id in g.dependants[model.uniqueId] || id in g.dependencies[model.uniqueId]
    ensures g.data[id].name in Keys(TableLineage(g, model))
  {
    assert id in Family(g, model.uniqueId);
    TableLineageKeys(g, model, g.data[id].name);
  }

  /** In a graph whose lists agree with its edges, every direct dependency of the model has an entry. */
  lemma DirectDependencyHasEntry(g: DepGraph, model: Model, x: string)
    requires Closed(g) && Transitive(g) && model.uniqueId in g.direct
    requires x in g.direct[model.uniqueId]
    ensures g.data[x].name in Keys(TableLineage(g, model))
  {
    var id := model.uniqueId;
    assert IsPath(g, [id, x]);
    assert Reaches(g, id, x);
    FamilyHasEntries(g, model, x);
  }

  /** In a graph whose lists agree with its edges, every model the model is a direct dependency of has an entry. */
  lemma DirectDependantHasEntry(g: DepGraph, model: Model, x: string)
    requires Closed(g) && Transitive(g) && model.uniqueId in g.direct
    requires x in g.direct && model.uniqueId in g.direct[x]
    ensures g.data[x].name in Keys(TableLineage(g, model))
  {
    var id := model.uniqueId;
    assert IsPath(g, [x, id]);
    assert Reaches(g, x, id);
    FamilyHasEntries(g, model, x);
  }

  function ModelNames(models: seq<Model>): (r: seq<string>)
    ensures |r| == |models|
    ensures forall i :: 0 <= i < |models| ==> r[i] == models[i].name
  {
    seq(|models|, i requires 0 <= i < |models| => models[i].name)
  }

  function Lineages(g: DepGraph, models: seq<Model>): (r: seq<LineageGraph>)
    requires Closed(g) && forall i :: 0 <= i < |models| ==> models[i].uniqueId in g.direct
    ensures |r| == |models|
    ensures forall i :: 0 <= i < |models| ==> r[i] == TableLineage(g, models[i])
  {
    seq(|models|, i requires 0 <= i < |models| => TableLineage(g, models[i]))
  }

  /** `translateDbtModelsToTableLineage`: each model's name mapped to its lineage. */
  function ModelsLineage(g: DepGraph, models: seq<Model>): Dict<LineageGraph>
    requires Closed(g) && forall i :: 0 <= i < |models| ==> models[i].uniqueId in g.direct
  {
    Assign(ModelNames(models), Lineages(g, models))
  }

  /** The keys are the model names. */
  lemma ModelsLineageKeys(g: DepGraph, models: seq<Model>, k: string)
    requires Closed(g) && forall i :: 0 <= i < |models| ==> models[i].uniqueId in g.direct
    ensures k in Keys(ModelsLineage(g, models)) <==> exists i :: 0 <= i < |models| && models[i].name == k
  {
    AssignKeys(ModelNames(models), Lineages(g, models), k);
    if k in ModelNames(models) {
      var i :| 0 <= i < |models| && ModelNames(models)[i] == k;
    }
  }

  /** A model that no later model shares a name with finds its own lineage under its name. */
  lemma ModelsLineageLookup(g: DepGraph, models: seq<Model>, i: nat)
    requires Closed(g) && forall i :: 0 <= i < |models| ==> models[i].uniqueId in g.direct
    requires i < |models|
    requires forall j :: i < j < |models| ==> models[j].name != models[i].name
    ensures Get(ModelsLineage(g, models), models[i].name) == Some(TableLineage(g, models[i]))
  {
    AssignLast(ModelNames(models), Lineages(g, models), i);
  }
}
