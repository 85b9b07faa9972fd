/** What the statements and loops of BootDb need to know about tables: which rows
    a statement adds or takes away, and what a list of rows stands for. */
module TableFacts {
  import opened Tables
  import opened StoreSpec
  import opened StoreLaws
  import opened Requests
  import opened DeleteLaws
  import opened StatementSafety
  import opened UpdatePlan

  function IdSet(ids: seq<Id>): set<Id> { set id | id in ids }

  /** An id list in an IN clause; the empty list is written as one blank id. */
  function IdsIn(ids: seq<Id>): set<Id> {
    if ids == [] then {BLANK_ID} else IdSet(ids)
  }

  /** The OR filter of the search for existing configurations: any non-blank
      field matches, and a blank request matches everything. */
  predicate MatchesAny(items: Config, c: Config) {
    || items.Blank()
    || (items.kernel != "" && c.kernel == items.kernel)
    || (items.initrd != "" && c.initrd == items.initrd)
    || (items.params != "" && c.params == items.params)
  }

  /** A group that matches, with its config. */
  predicate JoinedRow(t: Tables, items: Config, bg: BootGroup, bc: BootConfig) {
    && bg.id in t.groups && t.groups[bg.id] == bg
    && bg.configId in t.configs && t.configs[bg.configId] == bc
    && MatchesAny(items, bc.config)
  }

  // ---------------------------------------------------------------- statements

  /** Rows deleted from a table, or one inserted. */
  predicate RowsChanged<R(==)>(m: map<Id, R>, m': map<Id, R>) {
    || (m'.Keys <= m.Keys && forall k | k in m' :: m'[k] == m[k])
    || (exists k :: k in m' && k !in m && m' == m[k := m'[k]])
  }

  /** Assignments deleted, one inserted, or some given another group. */
  ghost predicate AssignmentsChanged(s: seq<Assignment>, s': seq<Assignment>) {
    || (exists ids :: s' == Without(s, ids))
    || (s <= s' && |s'| == |s| + 1)
    || (exists ids, g :: s' == AssignedTo(s, ids, g))
  }

  /** What one SQL statement may do: it changes one table. */
  ghost predicate OneStatement(s: Tables, t: Tables) {
    || (t == s.(nodes := t.nodes) && RowsChanged(s.nodes, t.nodes))
    || (t == s.(groups := t.groups) && RowsChanged(s.groups, t.groups))
    || (t == s.(configs := t.configs) && RowsChanged(s.configs, t.configs))
    || (t == s.(assignments := t.assignments) && AssignmentsChanged(s.assignments, t.assignments))
  }

  /** The tables after one statement each, the last of them t. */
  ghost predicate Consecutive(history: seq<Tables>, t: Tables) {
    && history != [] && history[|history| - 1] == t
    && forall i | 0 < i < |history| :: OneStatement(history[i - 1], history[i])
  }

  function NodeIds(nodes: seq<Node>): seq<Id> {
    seq(|nodes|, i requires 0 <= i < |nodes| => nodes[i].id)
  }

  /** Rows numbered in order by the id supply between lo and hi. */
  predicate NumberedBetween(list: seq<Node>, lo: Id, hi: Id) {
    && (forall i | 0 <= i < |list| :: lo <= list[i].id < hi)
    && (forall i, j | 0 <= i < j < |list| :: list[i].id < list[j].id)
  }

  lemma InsertedNodes(before: map<Id, Node>, list: seq<Node>, after: map<Id, Node>)
    requires DistinctIds(list) && Submap(before, after) && (forall n | n in list :: n.id !in before)
    requires forall i | 0 <= i < |list| :: list[i].id in after && after[list[i].id] == list[i]
    requires forall id | id in after && id !in before :: after[id] in list && after[id].id == id
    ensures after == before + ById(list)
  {}

  /** A requested identity has a node among the selected ones exactly when it
      has a node at all. */
  lemma ExistingAreKnown(t: Tables, sel: Selector, existing: seq<Node>)
    requires KeyedById(t)
    requires forall n :: n in existing <==> n.id in t.nodes && t.nodes[n.id] == n && Selects(sel, n)
    ensures forall m | m in sel.macs :: (exists n :: n in existing && n.mac == Lower(m)) <==> KnownMac(t, m)
    ensures forall x | x in sel.xnames :: (exists n :: n in existing && n.xname == x) <==> KnownXname(t, x)
    ensures forall k | k in sel.nids :: (exists n :: n in existing && n.nid == k) <==> KnownNid(t, k)
  {}

  /** g holds content c in t', in a group of t when t stores c, else in the one
      pair that t' has more. */
  ghost predicate TargetsGroup(t: Tables, c: Config, g: Id, t': Tables)
    requires WellFormed(t)
  {
    && t'.nodes == t.nodes && t'.assignments == t.assignments
    && if Stored(t, c)
       then g in t.groups && ConfigAt(t, g) == c && t'.groups == t.groups && t'.configs == t.configs
       else NewPair(t, t', g, c)
            && t'.groups == t.groups[g := t'.groups[g]]
            && t'.configs == t.configs[t'.groups[g].configId := t'.configs[t'.groups[g].configId]]
  }

  lemma AddCompletes(t: Tables, list: seq<Node>, c: Config, g: Id, t': Tables)
    requires WellFormed(t) && list != [] && DistinctIds(list) && c.kernel != ""
    requires forall n | n in list :: n.id !in t.nodes && n.id != BLANK_ID
    requires TargetsGroup(t, c, g, t'.(nodes := t.nodes, assignments := t.assignments))
    requires t'.nodes == t.nodes + ById(list) && t'.assignments == t.assignments + AssignAll(g, list)
    ensures Adds(t, list, c, t') && WellFormed(t')
  {
    assert AddsTo(t, list, c, g, t');
    AddRefinesExtension(t, list, c, t');
  }

  lemma HistoryKeepsAll(t: Tables, hs: seq<Tables>, from: nat)
    requires WellFormed(t) && forall i | from <= i < |hs| :: Extends(t, hs[i])
    ensures forall i | from <= i < |hs| :: KeepsAll(t, hs[i])
  {}

  lemma ConfigIdsOf(groups: map<Id, BootGroup>, ids: seq<Id>, bgs: seq<BootGroup>, configIds: seq<Id>)
    requires forall bg :: bg in bgs <==> bg.id in groups && groups[bg.id] == bg && bg.id in ids
    requires forall g | g in ids :: g in groups && groups[g].id == g
    requires |configIds| == |bgs| && forall i | 0 <= i < |bgs| :: configIds[i] == bgs[i].configId
    ensures IdSet(configIds) == set g | g in ids && g in groups :: groups[g].configId
  {}

  lemma SelectedNodeIds(t: Tables, sel: Selector, list: seq<Node>)
    requires KeyedById(t)
    requires forall n :: n in list <==> n.id in t.nodes && t.nodes[n.id] == n && Selects(sel, n)
    ensures IdSet(NodeIds(list)) == SelectedIds(t, sel)
  {
    var ids := NodeIds(list);
    forall id | id in SelectedIds(t, sel) ensures id in ids {
      var i :| 0 <= i < |list| && list[i] == t.nodes[id];
      assert ids[i] == id;
    }
    forall i | 0 <= i < |ids| ensures ids[i] in SelectedIds(t, sel) { assert list[i] in list; }
  }

  /** Every assignment joins a node to a group, every group to a config. */
  predicate JoinsOk(t: Tables) {
    && KeyedById(t)
    && (forall a | a in t.assignments :: a.node in t.nodes && a.group in t.groups)
    && (forall g | g in t.groups :: t.groups[g].configId in t.configs)
  }

  /** Groups of deleted assignments that no remaining node is assigned to. */
  lemma LeftEmptyIsEmptied(t: Tables, ids: set<Id>, removed: seq<Assignment>, empty: seq<Id>)
    requires JoinsOk(t)
    requires forall a :: a in removed <==> a in t.assignments && a.node in ids
    requires forall g :: g in empty <==>
               (exists a :: a in removed && a.group == g)
               && !(exists b :: b in Without(t.assignments, ids) && b.group == g && b.node in t.nodes - ids)
    ensures IdSet(empty) == Emptied(t, ids)
    ensures forall g | g in empty :: g in t.groups && t.groups[g].configId in t.configs
  {}

  lemma WellFormedJoins(t: Tables)
    requires WellFormed(t)
    ensures JoinsOk(t)
  {}

  lemma DeleteFinished(t: Tables, ids: set<Id>, empty: seq<Id>, s: Tables)
    requires forall g | g in t.groups :: t.groups[g].configId in t.configs
    requires s.nodes == t.nodes - ids && s.assignments == Without(t.assignments, ids)
    requires s.groups == t.groups - IdSet(empty)
    requires s.configs == t.configs - set g | g in empty && g in t.groups :: t.groups[g].configId
    ensures s == Removed(t, ids, IdSet(empty))
    ensures (set g | g in empty && g in t.groups :: t.groups[g].configId) == t.configs.Keys - s.configs.Keys
  {}

  lemma NothingDeleted(t: Tables, sel: Selector)
    requires SelectedIds(t, sel) == {}
    ensures DeletedNodes(t, sel) == t
  {
    WithoutNone(t.assignments, {});
    NothingRemoved(t);
    assert Emptied(t, {}) == {};
    assert t.nodes - {} == t.nodes;
  }

  /** The tables after one of the statements of a delete by node. */
  ghost predicate DeleteStage(t: Tables, u: Tables, s: Tables) {
    var s1 := t.(nodes := u.nodes);
    var s2 := s1.(assignments := u.assignments);
    s == s1 || s == s2 || s == s2.(groups := u.groups) || s == u
  }

  lemma DeleteStageKeeps(t: Tables, sel: Selector, s: Tables)
    requires WellFormed(t) && DeleteStage(t, DeletedNodes(t, sel), s)
    ensures KeepsOthers(t, SelectedIds(t, sel), s)
  {
    var ids := SelectedIds(t, sel);
    var gs := Emptied(t, ids);
    forall g | g in t.groups && g !in gs
      ensures g in s.groups && s.groups[g] == t.groups[g]
      ensures t.groups[g].configId in s.configs && s.configs[t.groups[g].configId] == t.configs[t.groups[g].configId]
    {
      RemovedGroup(t, ids, gs, g);
    }
    MidDeleteKeepsOthers(t, ids, gs, s);
  }

  lemma DeleteAfter(t: Tables, sel: Selector, stages: seq<Tables>)
    requires WellFormed(t) && forall s | s in stages :: DeleteStage(t, DeletedNodes(t, sel), s)
    ensures WellFormed(DeletedNodes(t, sel))
    ensures forall s | s in stages :: KeepsOthers(t, SelectedIds(t, sel), s)
  {
    DeleteRefinesRestriction(t, sel);
    forall s | s in stages ensures KeepsOthers(t, SelectedIds(t, sel), s) { DeleteStageKeeps(t, sel, s); }
  }

  /** No row has a blank id, so a list and the IN clause made from it match the
      same rows. */
  lemma MatchingGroups(t: Tables, items: Config, configIds: seq<Id>, groupIds: seq<Id>)
    requires KeyedById(t) && GroupsOk(t)
    requires forall k :: k in configIds <==> k in t.configs && MatchesItems(items, t.configs[k].config)
    requires forall g :: g in groupIds <==> g in t.groups && t.groups[g].configId in IdsIn(configIds)
    ensures IdSet(groupIds) == GroupsWithItems(t, items)
    ensures t.groups - IdSet(groupIds) == DeletedItems(t, items).groups
    ensures t.configs - IdSet(configIds) == DeletedItems(t, items).configs
    ensures IdSet(configIds) == t.configs.Keys - (t.configs - IdSet(configIds)).Keys
  {
    forall g | g in t.groups ensures g in groupIds <==> g in GroupsWithItems(t, items) {
      assert GroupOk(t, t.groups[g]);
    }
    forall k | k in configIds ensures exists g :: g in GroupsWithItems(t, items) && t.groups[g].configId == k {
      assert HasGroup(t, k);
      var g :| g in t.groups && t.groups[g].configId == k;
      assert g in GroupsWithItems(t, items);
    }
  }

  lemma MatchingNodes(t: Tables, items: Config, groupIds: seq<Id>, removed: seq<Assignment>, nodeIds: seq<Id>)
    requires KeyedById(t) && AssignmentsOk(t) && IdSet(groupIds) == GroupsWithItems(t, items)
    requires forall a :: a in removed <==> a in t.assignments && a.group in IdsIn(groupIds)
    requires |nodeIds| == |removed| && forall i | 0 <= i < |removed| :: nodeIds[i] == removed[i].node
    ensures Without(t.assignments, NodesOfGroups(t, IdsIn(groupIds))) == DeletedItems(t, items).assignments
    ensures t.nodes - IdsIn(nodeIds) == DeletedItems(t, items).nodes
  {
    var gs := GroupsWithItems(t, items);
    forall a | a in t.assignments ensures a.group in IdsIn(groupIds) <==> a.group in gs {}
    assert NodesOfGroups(t, IdsIn(groupIds)) == NodesOfGroups(t, gs);
    forall a | a in removed ensures a.node in nodeIds {
      var i :| 0 <= i < |removed| && removed[i] == a;
    }
    forall id | id in t.nodes ensures id in IdsIn(nodeIds) <==> id in NodesOfGroups(t, gs) {
      if id in nodeIds {
        var i :| 0 <= i < |nodeIds| && nodeIds[i] == id;
        assert removed[i] in removed;
      }
    }
  }

  lemma DeletedItemsKeyed(t: Tables, items: Config)
    requires KeyedById(t)
    ensures var u := DeletedItems(t, items); KeyedById(u.(nodes := t.nodes, assignments := t.assignments))
  {}

  /** The tables after each statement of a delete by configuration. */
  function ItemsStages(t: Tables, items: Config): seq<Tables> {
    var u := DeletedItems(t, items);
    [t.(configs := u.configs), t.(configs := u.configs, groups := u.groups), u.(nodes := t.nodes), u]
  }

  lemma ReportedTwice(ids: seq<Id>)
    ensures IdSet(ids + ids) == IdSet(ids)
  {}

  lemma ItemsStageKeeps(t: Tables, items: Config, s: Tables)
    requires WellFormed(t) && s in ItemsStages(t, items)
    ensures KeepsOthers(t, NodesOfGroups(t, GroupsWithItems(t, items)), s)
  {
    hide WellFormed, KeepsOthers, MatchesItems;
    var gs := GroupsWithItems(t, items);
    var ids := NodesOfGroups(t, gs);
    forall g | g in t.groups && g !in gs
      ensures g in s.groups && s.groups[g] == t.groups[g]
      ensures t.groups[g].configId in s.configs && s.configs[t.groups[g].configId] == t.configs[t.groups[g].configId]
    {
      RemovedGroup(t, ids, gs, g);
    }
    MidDeleteKeepsOthers(t, ids, gs, s);
  }

  lemma GoneIds(before: map<Id, Node>, after: map<Id, Node>, list: seq<Node>)
    requires forall id | id in before :: before[id].id == id
    requires forall n :: n in list <==> n.id in before && before[n.id] == n && n.id !in after
    ensures IdSet(NodeIds(list)) == before.Keys - after.Keys
  {
    forall id | id in before && id !in after ensures id in NodeIds(list) {
      var i :| 0 <= i < |list| && list[i] == before[id];
      assert NodeIds(list)[i] == id;
    }
    forall i | 0 <= i < |list| ensures NodeIds(list)[i] in before.Keys - after.Keys { assert list[i] in list; }
  }

  lemma DeletedItemsAfter(t: Tables, items: Config)
    requires WellFormed(t)
    ensures WellFormed(DeletedItems(t, items))
    ensures forall s | s in ItemsStages(t, items) :: KeepsOthers(t, t.nodes.Keys - DeletedItems(t, items).nodes.Keys, s)
  {
    DeleteItemsRefinesRestriction(t, items);
    MatchingNodesExist(t, items);
    forall s | s in ItemsStages(t, items)
      ensures KeepsOthers(t, t.nodes.Keys - DeletedItems(t, items).nodes.Keys, s)
    {
      ItemsStageKeeps(t, items, s);
    }
  }

  lemma MatchingNodesExist(t: Tables, items: Config)
    requires forall a | a in t.assignments :: a.node in t.nodes
    ensures NodesOfGroups(t, GroupsWithItems(t, items)) == t.nodes.Keys - DeletedItems(t, items).nodes.Keys
  {}

  /** Stored groups by content, among them all that pass the OR filter. */
  ghost predicate SimilarOk(t: Tables, patch: Config, similar: map<Config, BootGroup>) {
    && (forall c | c in similar :: similar[c].id in t.groups && t.groups[similar[c].id] == similar[c]
          && similar[c].configId in t.configs && ConfigAt(t, similar[c].id) == c)
    && (forall g | g in t.groups && t.groups[g].configId in t.configs && MatchesAny(patch, ConfigAt(t, g)) ::
          ConfigAt(t, g) in similar)
  }

  /** The filter looks only at the patch, and still no stored config equal to
      the overlaid one escapes it. */
  lemma SimilarIsComplete(t: Tables, patch: Config, similar: map<Config, BootGroup>, base: Config)
    requires WellFormed(t) && SimilarOk(t, patch, similar) && !patch.Blank()
    ensures var c := Overlay(base, patch);
            (c in similar <==> Stored(t, c))
            && (c in similar ==> similar[c].name == similar[c].description == NodesLabel(c))
  {}

  /** All nodes of a group, selected or not. */
  predicate NodesOf(t: Tables, g: Id, list: seq<Node>) {
    && (forall n | n in list :: n.id in t.nodes && t.nodes[n.id] == n && Assignment(g, n.id) in t.assignments)
    && (forall a | a in t.assignments && a.group == g && a.node in t.nodes :: t.nodes[a.node] in list)
  }

  lemma SelectedList(t: Tables, sel: Selector, g: Id, nList: seq<Node>, nToBgbc: map<Node, Bgbc>, list: seq<Node>)
    requires KeyedById(t) && NodesOf(t, g, nList) && list != []
    requires forall n :: n in nToBgbc <==> SelectsRow(t, sel, n)
    requires forall n :: n in list <==> n in nList && n in nToBgbc
    ensures ListsGroup(t, sel, g, list)
  {}

  /** What is known when the update comes to one touched group. */
  ghost predicate GroupPlannable(t: Tables, sel: Selector, patch: Config, ncfg: Bgbc, nList: seq<Node>,
                                 nToBgbc: map<Node, Bgbc>, similar: map<Config, BootGroup>)
  {
    && WellFormed(t) && !patch.Blank() && SimilarOk(t, patch, similar)
    && ncfg.bg.id in t.groups && ncfg.bg.configId in t.configs
    && ncfg.bg == t.groups[ncfg.bg.id] && ncfg.bc == t.configs[ncfg.bg.configId]
    && (forall n :: n in nToBgbc <==> SelectsRow(t, sel, n))
    && NodesOf(t, ncfg.bg.id, nList) && exists n :: n in nList && n in nToBgbc
  }

  lemma InsertedConfigs(before: map<Id, BootConfig>, after: map<Id, BootConfig>, keys: seq<Bgbc>, list: seq<BootConfig>)
    requires |list| == |keys| && forall i | 0 <= i < |keys| :: list[i] == keys[i].bc
    requires forall bc | bc in list :: bc.id in after && after[bc.id] == bc
    requires forall c | c in after && c !in before :: after[c] in list && after[c].id == c
    ensures forall k | k in keys :: k.bc.id in after && after[k.bc.id] == k.bc
    ensures forall c | c in after && c !in before :: exists k :: k in keys && k.bc.id == c
  {}

  lemma InsertedGroups(before: map<Id, BootGroup>, after: map<Id, BootGroup>, keys: seq<Bgbc>, list: seq<BootGroup>)
    requires |list| == |keys| && forall i | 0 <= i < |keys| :: list[i] == keys[i].bg
    requires forall bg | bg in list :: bg.id in after && after[bg.id] == bg
    requires forall g | g in after && g !in before :: after[g] in list && after[g].id == g
    ensures forall k | k in keys :: k.bg.id in after && after[k.bg.id] == k.bg
    ensures forall g | g in after && g !in before :: exists k :: k in keys && k.bg.id == g
  {}

  lemma NodeIdsSet(list: seq<Node>)
    ensures IdSet(NodeIds(list)) == set n | n in list :: n.id
    ensures forall n | n in list :: n.id in NodeIds(list)
    ensures forall id | id in NodeIds(list) :: exists n :: n in list && n.id == id
  {
    forall n | n in list ensures n.id in NodeIds(list) {
      var i :| 0 <= i < |list| && list[i] == n;
      assert NodeIds(list)[i] == n.id;
    }
    forall i | 0 <= i < |list| ensures exists n :: n in list && n.id == NodeIds(list)[i] { assert list[i] in list; }
  }

  /** s differs from base in its assignments only, and they are those of t with
      some entries repointed. */
  ghost predicate MovedFrom(t: Tables, sel: Selector, target: map<Id, Bgbc>, base: Tables, s: Tables) {
    s == base.(assignments := s.assignments) && exists d :: s.assignments == Moved(t, sel, target, d)
  }

  lemma WrittenStages(t: Tables, sel: Selector, target: map<Id, Bgbc>, toAdd: map<Bgbc, seq<Node>>, base: Tables,
                      written: seq<Tables>, moves: seq<Tables>)
    requires Inserted(t, toAdd, base) && base.nodes == t.nodes
    requires forall h | h in written :: OnlyInserted(t, h)
    requires forall i | 0 <= i < |moves| :: MovedFrom(t, sel, target, base, moves[i])
    ensures forall h | h in written + moves :: UpdateStage(t, sel, target, toAdd, h)
  {}

  /** What came behind two stretches of a history. */
  lemma StagesBehind(first: seq<Tables>, second: seq<Tables>, history: seq<Tables>)
    requires first + second <= history
    ensures history == first + (second + history[|first + second|..])
  {}

  lemma SelectedKeys(t: Tables, sel: Selector, m: map<Node, Bgbc>)
    requires KeyedById(t) && forall n :: n in m <==> SelectsRow(t, sel, n)
    ensures (set n | n in m :: n.id) == SelectedIds(t, sel)
    ensures m == map[] <==> SelectedIds(t, sel) == {}
  {
    forall id | id in SelectedIds(t, sel) ensures t.nodes[id] in m {}
    forall n | n in m ensures n.id in SelectedIds(t, sel) {}
  }

  lemma TouchedKeys(t: Tables, sel: Selector, ids: set<Id>, m: map<Bgbc, seq<Node>>)
    requires ids == SelectedIds(t, sel)
    requires (set k | k in m :: k.bg.id) == set a | a in t.assignments && a.node in ids :: a.group
    ensures (set k | k in m :: k.bg.id) == Touched(t, sel)
  {}

  lemma TouchedIsPlannable(t: Tables, sel: Selector, patch: Config, k: Bgbc, nList: seq<Node>,
                           nToBgbc: map<Node, Bgbc>, similar: map<Config, BootGroup>)
    requires WellFormed(t) && !patch.Blank() && SimilarOk(t, patch, similar)
    requires k.bg.id in Touched(t, sel) && k.bg.id in t.groups && t.groups[k.bg.id].configId in t.configs
    requires k == BgbcAt(t, k.bg.id) && NodesOf(t, k.bg.id, nList)
    requires forall n :: n in nToBgbc <==> SelectsRow(t, sel, n)
    ensures GroupPlannable(t, sel, patch, k, nList, nToBgbc, similar)
  {}

  /** No two entries have the same group. */
  lemma DistinctGroups(t: Tables, sel: Selector, patch: Config, bgbcToN: map<Bgbc, seq<Node>>,
                       nToBgbc: map<Node, Bgbc>, similar: map<Config, BootGroup>)
    requires forall k | k in bgbcToN :: GroupPlannable(t, sel, patch, k, bgbcToN[k], nToBgbc, similar)
    ensures GroupsDiffer(bgbcToN.Keys)
  {}

  predicate GroupsDiffer(keys: set<Bgbc>) {
    forall k, l | k in keys && l in keys && k != l :: k.bg.id != l.bg.id
  }

  /** The groups of the entries gone through are exactly the planned ones. */
  predicate GroupsPlanned(keys: set<Bgbc>, rest: set<Bgbc>, planned: set<Id>) {
    GroupsDiffer(keys) && rest <= keys && planned == set k | k in keys && k !in rest :: k.bg.id
  }

  lemma NonePlanned(keys: set<Bgbc>)
    requires GroupsDiffer(keys)
    ensures GroupsPlanned(keys, keys, {})
  {}

  lemma PlannedNext(keys: set<Bgbc>, rest: set<Bgbc>, planned: set<Id>, k: Bgbc)
    requires GroupsPlanned(keys, rest, planned) && k in rest
    ensures k.bg.id !in planned && GroupsPlanned(keys, rest - {k}, planned + {k.bg.id})
  {}

  lemma KeyIsNew(target: map<Id, Bgbc>, source: map<Bgbc, Id>, toAdd: map<Bgbc, seq<Node>>,
                 toReuse: map<Bgbc, seq<Node>>, lo: Id, hi: Id, k: Bgbc)
    requires PlanShape(target, source, toAdd, toReuse, lo, hi) && hi <= k.bc.id
    ensures k !in toAdd && k !in toReuse
  {}

  lemma ReuseGroup(t: Tables, sel: Selector, patch: Config, ncfg: Bgbc, nList: seq<Node>, nToBgbc: map<Node, Bgbc>,
                   similar: map<Config, BootGroup>, target: map<Id, Bgbc>, source: map<Bgbc, Id>,
                   toAdd: map<Bgbc, seq<Node>>, toReuse: map<Bgbc, seq<Node>>, lo: Id, hi: Id, hi': Id,
                   k: Bgbc, list: seq<Node>)
    requires Plans(t, sel, patch, target, source, toAdd, toReuse, lo, hi)
    requires GroupPlannable(t, sel, patch, ncfg, nList, nToBgbc, similar) && ncfg.bg.id !in target
    requires k.bc.config == Overlay(ncfg.bc.config, patch) && k.bc.config in similar && k.bg == similar[k.bc.config]
    requires lo <= hi <= k.bc.id < hi'
    requires list != [] && forall n :: n in list <==> n in nList && n in nToBgbc
    ensures Plans(t, sel, patch, target[ncfg.bg.id := k], source[k := ncfg.bg.id], toAdd, toReuse[k := list], lo, hi')
  {
    SimilarIsComplete(t, patch, similar, ncfg.bc.config);
    SelectedList(t, sel, ncfg.bg.id, nList, nToBgbc, list);
    KeyIsNew(target, source, toAdd, toReuse, lo, hi, k);
    PlanReuse(t, sel, patch, target, source, toAdd, toReuse, lo, hi, hi', ncfg.bg.id, k, list);
  }

  lemma InsertGroup(t: Tables, sel: Selector, patch: Config, ncfg: Bgbc, nList: seq<Node>, nToBgbc: map<Node, Bgbc>,
                    similar: map<Config, BootGroup>, target: map<Id, Bgbc>, source: map<Bgbc, Id>,
                    toAdd: map<Bgbc, seq<Node>>, toReuse: map<Bgbc, seq<Node>>, lo: Id, hi: Id, hi': Id,
                    k: Bgbc, list: seq<Node>)
    requires Plans(t, sel, patch, target, source, toAdd, toReuse, lo, hi)
    requires GroupPlannable(t, sel, patch, ncfg, nList, nToBgbc, similar) && ncfg.bg.id !in target
    requires var c := Overlay(ncfg.bc.config, patch);
             k.bc.config == c && k.bg == BootGroup(k.bg.id, k.bc.id, NodesLabel(c), NodesLabel(c))
             && (c in similar ==> !(similar[c].name == similar[c].description == NodesLabel(c)))
    requires lo <= hi && FreshIds(k, hi, hi')
    requires list != [] && forall n :: n in list <==> n in nList && n in nToBgbc
    ensures Plans(t, sel, patch, target[ncfg.bg.id := k], source[k := ncfg.bg.id], toAdd[k := list], toReuse, lo, hi')
  {
    SimilarIsComplete(t, patch, similar, ncfg.bc.config);
    SelectedList(t, sel, ncfg.bg.id, nList, nToBgbc, list);
    KeyIsNew(target, source, toAdd, toReuse, lo, hi, k);
    PlanAdd(t, sel, patch, target, source, toAdd, toReuse, lo, hi, hi', ncfg.bg.id, k, list);
  }

  lemma TakeNext<T>(s: seq<T>, i: nat)
    requires i < |s|
    ensures s[..i + 1] == s[..i] + [s[i]] && s[i] in s
  {}

  function XnameRows(from: Id, xnames: seq<string>): (r: seq<Node>)
    ensures |r| == |xnames|
  {
    seq(|xnames|, i requires 0 <= i < |xnames| => Node(from + i, "", xnames[i], 0))
  }

  lemma XnameRowsNext(from: Id, xnames: seq<string>, x: string)
    ensures XnameRows(from, xnames + [x]) == XnameRows(from, xnames) + [Node(from + |xnames|, "", x, 0)]
  {}

  lemma GoneWithGroup(t: Tables, groupIds: set<Id>)
    requires DistinctNodes(t.assignments)
    ensures forall a | a in t.assignments :: a.node in NodesOfGroups(t, groupIds) <==> a.group in groupIds
  {}

  lemma GroupKeys(t: Tables, groupIds: set<Id>, m: map<Bgbc, seq<Node>>)
    requires JoinsOk(t)
    requires forall k | k in m :: k.bg.id in t.groups && k.bg.id in groupIds
    requires forall a | a in t.assignments && a.group in groupIds :: BgbcAt(t, a.group) in m
    requires forall g | g in groupIds :: exists a :: a in t.assignments && a.group == g
    ensures (set k | k in m :: k.bg.id) == groupIds
  {}

  lemma RebuiltFrom(t: Tables, sel: Selector, list: seq<Node>, upd: Selector)
    requires KeyedById(t)
    requires forall n :: n in list <==> n.id in t.nodes && t.nodes[n.id] == n && Selects(sel, n)
    requires forall m :: m in upd.macs <==> m != "" && exists n :: n in list && n.mac == m
    requires forall x :: x in upd.xnames <==> x != "" && exists n :: n in list && n.xname == x
    requires forall k :: k in upd.nids <==> k != 0 && exists n :: n in list && n.nid == k
    ensures Rebuilt(t, sel, upd)
  {}

  lemma NothingListed(t: Tables, sel: Selector, list: seq<Node>)
    requires KeyedById(t)
    requires forall n :: n in list <==> n.id in t.nodes && t.nodes[n.id] == n && Selects(sel, n)
    ensures list == [] <==> SelectedIds(t, sel) == {}
  {
    if list != [] { assert list[0] in list; assert list[0].id in SelectedIds(t, sel); }
    forall id | id in SelectedIds(t, sel) ensures t.nodes[id] in list {}
  }
}
