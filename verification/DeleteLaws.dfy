/** Deleting nodes: exactly the matching ones leave the map, and no group is
    left behind or taken away wrongly. */
module DeleteLaws {
  import opened Common
  import opened Tables
  import opened StoreSpec

  lemma WithoutDistinct(s: seq<Assignment>, ids: set<Id>)
    requires DistinctNodes(s)
    ensures DistinctNodes(Without(s, ids))
  {}

  ghost function RestrictedView(v: map<Node, Config>, ids: set<Id>): map<Node, Config> {
    map n | n in v && n.id !in ids :: v[n]
  }

  /** Only nodes that leave are assigned to the groups that leave. */
  ghost predicate Closed(t: Tables, nodeIds: set<Id>, groupIds: set<Id>) {
    forall a | a in t.assignments && a.group in groupIds :: a.node in nodeIds
  }

  lemma RemovedGroup(t: Tables, nodeIds: set<Id>, groupIds: set<Id>, g: Id)
    requires WellFormed(t) && g in t.groups && g !in groupIds
    ensures var t' := Removed(t, nodeIds, groupIds);
            g in t'.groups && t'.groups[g] == t.groups[g] && GroupOk(t', t'.groups[g])
            && ConfigAt(t', g) == ConfigAt(t, g)
  {}

  lemma RemovedConfig(t: Tables, nodeIds: set<Id>, groupIds: set<Id>, k: Id)
    requires WellFormed(t) && k in Removed(t, nodeIds, groupIds).configs
    ensures HasGroup(Removed(t, nodeIds, groupIds), k)
  {
    var t' := Removed(t, nodeIds, groupIds);
    assert HasGroup(t, k);
    var g :| g in t.groups && t.groups[g].configId == k;
    assert g in t'.groups && t'.groups[g].configId == k;
  }

  lemma RemovedAssignments(t: Tables, nodeIds: set<Id>, groupIds: set<Id>)
    requires WellFormed(t) && Closed(t, nodeIds, groupIds)
    ensures AssignmentsOk(Removed(t, nodeIds, groupIds))
  {
    var t' := Removed(t, nodeIds, groupIds);
    WithoutDistinct(t.assignments, nodeIds);
    forall id | id in t'.nodes ensures Assigned(t', id) {
      assert Assigned(t, id);
      var g :| Assignment(g, id) in t.assignments;
      assert Assignment(g, id) in t'.assignments;
    }
  }

  lemma RemovedWellFormed(t: Tables, nodeIds: set<Id>, groupIds: set<Id>)
    requires WellFormed(t) && Closed(t, nodeIds, groupIds)
    ensures WellFormed(Removed(t, nodeIds, groupIds))
  {
    var t' := Removed(t, nodeIds, groupIds);
    RemovedAssignments(t, nodeIds, groupIds);
    forall g | g in t'.groups ensures GroupOk(t', t'.groups[g]) { RemovedGroup(t, nodeIds, groupIds, g); }
    forall k | k in t'.configs ensures HasGroup(t', k) { RemovedConfig(t, nodeIds, groupIds, k); }
  }

  lemma RemovedNode(t: Tables, nodeIds: set<Id>, groupIds: set<Id>, n: Node)
    requires WellFormed(t) && Closed(t, nodeIds, groupIds) && n in View(t) && n.id !in nodeIds
    requires AssignmentsOk(Removed(t, nodeIds, groupIds))
    ensures ResolvesTo(Removed(t, nodeIds, groupIds), n, View(t)[n])
  {
    var t' := Removed(t, nodeIds, groupIds);
    var a := Assignment(GroupOf(t, n.id), n.id);
    RemovedGroup(t, nodeIds, groupIds, a.group);
    OneResolves(t', n, a, View(t)[n]);
  }

  /** Taking nodes out with groups only they use restricts the map and leaves
      the tables well formed and as deduplicated as they were. */
  lemma RemovedRefinesRestriction(t: Tables, nodeIds: set<Id>, groupIds: set<Id>)
    requires WellFormed(t) && Closed(t, nodeIds, groupIds)
    ensures var t' := Removed(t, nodeIds, groupIds);
            WellFormed(t') && View(t') == RestrictedView(View(t), nodeIds)
            && (Deduplicated(t) ==> Deduplicated(t'))
  {
    var t' := Removed(t, nodeIds, groupIds);
    RemovedWellFormed(t, nodeIds, groupIds);
    var w := RestrictedView(View(t), nodeIds);
    forall n | n in w ensures ResolvesTo(t', n, w[n]) { RemovedNode(t, nodeIds, groupIds, n); }
    forall id | id in t'.nodes ensures t'.nodes[id] in w { assert t.nodes[id].id == id; }
    ViewIs(t', w);
    forall g, h | g in t'.groups && h in t'.groups && g != h && Deduplicated(t)
      ensures ConfigAt(t', g) != ConfigAt(t', h)
    {
      RemovedGroup(t, nodeIds, groupIds, g);
      RemovedGroup(t, nodeIds, groupIds, h);
    }
  }

  /** Delete by node: exactly the matching nodes leave the map. */
  lemma DeleteRefinesRestriction(t: Tables, sel: Selector)
    requires WellFormed(t)
    ensures var t' := DeletedNodes(t, sel);
            WellFormed(t') && View(t') == RestrictedView(View(t), SelectedIds(t, sel))
            && (Deduplicated(t) ==> Deduplicated(t'))
  {
    RemovedRefinesRestriction(t, SelectedIds(t, sel), Emptied(t, SelectedIds(t, sel)));
  }

  /** Delete by node neither leaves a group without nodes behind nor takes one
      away that had none: a group goes exactly when it lost its last node. */
  lemma DeleteKeepsOrphans(t: Tables, sel: Selector)
    requires WellFormed(t)
    ensures Orphans(DeletedNodes(t, sel)) == Orphans(t)
    ensures forall g | g in t.groups :: g in DeletedNodes(t, sel).groups <==>
              (exists a :: a in t.assignments && a.group == g && !SelectsId(t, sel, a.node)) || g in Orphans(t)
  {}

  lemma MatchingNode(t: Tables, items: Config, n: Node)
    requires WellFormed(t) && n in View(t)
    ensures n.id in NodesOfGroups(t, GroupsWithItems(t, items)) <==> MatchesItems(items, View(t)[n])
  {}

  ghost function UnmatchedView(v: map<Node, Config>, items: Config): map<Node, Config> {
    map n | n in v && !MatchesItems(items, v[n]) :: v[n]
  }

  /** Delete by configuration: exactly the nodes whose configuration matches
      every non-blank field leave the map. */
  lemma DeleteItemsRefinesRestriction(t: Tables, items: Config)
    requires WellFormed(t)
    ensures var t' := DeletedItems(t, items);
            WellFormed(t') && (Deduplicated(t) ==> Deduplicated(t'))
            && View(t') == UnmatchedView(View(t), items)
  {
    var gs := GroupsWithItems(t, items);
    var ids := NodesOfGroups(t, gs);
    RemovedRefinesRestriction(t, ids, gs);
    var v, w := RestrictedView(View(t), ids), UnmatchedView(View(t), items);
    forall n | n in View(t) ensures n in v <==> n in w { MatchingNode(t, items, n); }
    SameMap(v, w);
  }

  lemma NothingRemoved(t: Tables)
    ensures Removed(t, {}, {}).groups == t.groups && Removed(t, {}, {}).configs == t.configs
  {}
}
