/** What each boot-config operation does to the tables, as relations and
    functions on table values; the methods of BootDb are proved against them
    and the laws of StoreLaws are proved about them. */
module StoreSpec {
  import opened Tables

  // ---------------------------------------------------------------------- Add

  /** g and its config are a brand-new pair in t' with content c. */
  predicate NewPair(t: Tables, t': Tables, g: Id, c: Config) {
    && g !in t.groups && g in t'.groups && g != BLANK_ID
    && var k := t'.groups[g].configId;
       k !in t.configs && k in t'.configs && k != BLANK_ID
       && t'.groups[g] == BootGroup(g, k, NodesLabel(c), NodesLabel(c))
       && t'.configs[k] == BootConfig(k, c)
  }

  function AssignAll(g: Id, nodes: seq<Node>): (s: seq<Assignment>)
    ensures |s| == |nodes|
  {
    seq(|nodes|, i requires 0 <= i < |nodes| => Assignment(g, nodes[i].id))
  }

  /** The new nodes and their assignments to group g are appended; g is a
      stored group with content c when there is one, else the one new pair. */
  ghost predicate AddsTo(t: Tables, added: seq<Node>, c: Config, g: Id, t': Tables)
    requires WellFormed(t)
  {
    && added != [] && c.kernel != ""
    && DistinctIds(added)
    && (forall n | n in added :: n.id !in t.nodes && n.id != BLANK_ID)
    && t'.nodes == t.nodes + ById(added)
    && t'.assignments == t.assignments + AssignAll(g, added)
    && (if Stored(t, c)
        then g in t.groups && ConfigAt(t, g) == c && t'.groups == t.groups && t'.configs == t.configs
        else NewPair(t, t', g, c)
             && t'.groups == t.groups[g := t'.groups[g]]
             && t'.configs == t.configs[t'.groups[g].configId := t'.configs[t'.groups[g].configId]])
  }

  ghost predicate Adds(t: Tables, added: seq<Node>, c: Config, t': Tables)
    requires WellFormed(t)
  {
    exists g :: AddsTo(t, added, c, g, t')
  }

  // ------------------------------------------------------------------- Delete

  function Without(s: seq<Assignment>, nodeIds: set<Id>): (r: seq<Assignment>)
    ensures forall a :: a in r <==> a in s && a.node !in nodeIds
  {
    if s == [] then []
    else
      var last := s[|s| - 1];
      Without(s[..|s| - 1], nodeIds) + if last.node in nodeIds then [] else [last]
  }

  lemma WithoutNone(s: seq<Assignment>, nodeIds: set<Id>)
    requires forall a | a in s :: a.node !in nodeIds
    ensures Without(s, nodeIds) == s
  {
    if s != [] {
      var rest, last := s[..|s| - 1], s[|s| - 1];
      WithoutNone(rest, nodeIds);
      assert last in s && s == rest + [last];
    }
  }

  lemma WithoutNext(s: seq<Assignment>, k: nat, nodeIds: set<Id>)
    requires k < |s|
    ensures s[k].node in nodeIds ==> Without(s[..k + 1], nodeIds) == Without(s[..k], nodeIds)
    ensures s[k].node !in nodeIds ==> Without(s[..k + 1], nodeIds) == Without(s[..k], nodeIds) + [s[k]]
  {
    assert s[..k + 1][..k] == s[..k];
  }

  /** Nodes leave with their assignments, groups leave with their configs. */
  function Removed(t: Tables, nodeIds: set<Id>, groupIds: set<Id>): Tables {
    Tables(
      t.nodes - nodeIds,
      Without(t.assignments, nodeIds),
      t.groups - groupIds,
      t.configs - (set g | g in groupIds && g in t.groups :: t.groups[g].configId))
  }

  function SelectedIds(t: Tables, sel: Selector): set<Id> {
    set id | id in t.nodes && Selects(sel, t.nodes[id])
  }

  /** The groups that lose a node and keep none. */
  ghost function Emptied(t: Tables, nodeIds: set<Id>): set<Id> {
    set a | a in t.assignments && a.node in nodeIds
            && !(exists b :: b in t.assignments && b.group == a.group && b.node !in nodeIds) :: a.group
  }

  ghost function DeletedNodes(t: Tables, sel: Selector): Tables {
    Removed(t, SelectedIds(t, sel), Emptied(t, SelectedIds(t, sel)))
  }

  /** The WHERE clause of the delete by configuration: every non-blank field
      of the request has to match. */
  predicate MatchesItems(items: Config, c: Config) {
    && (items.kernel == "" || c.kernel == items.kernel)
    && (items.initrd == "" || c.initrd == items.initrd)
    && (items.params == "" || c.params == items.params)
  }

  function GroupsWithItems(t: Tables, items: Config): set<Id> {
    set g | g in t.groups && t.groups[g].configId in t.configs && MatchesItems(items, ConfigAt(t, g))
  }

  function NodesOfGroups(t: Tables, groupIds: set<Id>): set<Id> {
    set a | a in t.assignments && a.group in groupIds :: a.node
  }

  function DeletedItems(t: Tables, items: Config): Tables {
    var gs := GroupsWithItems(t, items);
    Removed(t, NodesOfGroups(t, gs), gs)
  }

  // ------------------------------------------------------------------- Update

  /** Where each touched group's selected nodes go: to a stored group with the
      overlaid content when there is one, else to a new pair of its own. */
  ghost predicate PlanOk(t: Tables, sel: Selector, patch: Config, plan: map<Id, Id>, t': Tables)
    requires WellFormed(t)
  {
    && plan.Keys == Touched(t, sel)
    && (forall g | g in plan :: g in t.groups && Target(t, Overlay(ConfigAt(t, g), patch), plan[g], t'))
    && (forall g, h | g in plan && h in plan && g != h && plan[g] !in t.groups ::
          plan[g] != plan[h]
          && (plan[g] in t'.groups && plan[h] in t'.groups ==>
                t'.groups[plan[g]].configId != t'.groups[plan[h]].configId))
  }

  /** Two touched groups would be merged by the patch into content that is not
      stored yet. */
  ghost predicate Collapses(t: Tables, sel: Selector, patch: Config)
    requires WellFormed(t)
  {
    exists g, h :: g in Touched(t, sel) && h in Touched(t, sel) && g != h
      && g in t.groups && h in t.groups
      && Overlay(ConfigAt(t, g), patch) == Overlay(ConfigAt(t, h), patch)
      && !Stored(t, Overlay(ConfigAt(t, g), patch))
  }

  ghost predicate Target(t: Tables, c: Config, g: Id, t': Tables)
    requires WellFormed(t)
  {
    if Stored(t, c) then g in t.groups && ConfigAt(t, g) == c else NewPair(t, t', g, c)
  }

  /** The tables gained rows, and the new ones are the plan's new pairs. */
  ghost predicate GrownBy(t: Tables, plan: map<Id, Id>, t': Tables) {
    && Submap(t.groups, t'.groups) && Submap(t.configs, t'.configs)
    && (forall g | g in t'.groups && g !in t.groups :: g in plan.Values)
    && (forall k | k in t'.configs && k !in t.configs ::
          exists g :: g in t'.groups && g !in t.groups && t'.groups[g].configId == k)
  }

  predicate Repointed(t: Tables, sel: Selector, plan: map<Id, Id>, a: Assignment, a': Assignment) {
    if SelectsId(t, sel, a.node)
    then a.group in plan && a' == Assignment(plan[a.group], a.node)
    else a' == a
  }

  ghost predicate UpdatesBy(t: Tables, sel: Selector, patch: Config, plan: map<Id, Id>, t': Tables)
    requires WellFormed(t)
  {
    && PlanOk(t, sel, patch, plan, t')
    && GrownBy(t, plan, t')
    && t'.nodes == t.nodes
    && |t'.assignments| == |t.assignments|
    && forall i | 0 <= i < |t.assignments| :: Repointed(t, sel, plan, t.assignments[i], t'.assignments[i])
  }

  ghost predicate Updates(t: Tables, sel: Selector, patch: Config, t': Tables)
    requires WellFormed(t)
  {
    exists plan :: UpdatesBy(t, sel, patch, plan, t')
  }
}
