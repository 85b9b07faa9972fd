/** Whether a Delete with the selectors of an Add undoes it. */
module AddDelete {
  import opened Common
  import opened DeleteLaws
  import opened Identities
  import opened Requests
  import opened StoreLaws
  import opened StoreSpec
  import opened Tables

  lemma WithoutAppended(s: seq<Assignment>, extra: seq<Assignment>, ids: set<Id>)
    requires forall a | a in s :: a.node !in ids
    requires forall a | a in extra :: a.node in ids
    ensures Without(s + extra, ids) == s
    decreases |extra|
  {
    if extra == [] {
      assert s + extra == s;
      WithoutNone(s, ids);
    } else {
      assert (s + extra)[..|s + extra| - 1] == s + extra[..|extra| - 1];
      WithoutAppended(s, extra[..|extra| - 1], ids);
    }
  }

  /** sel selects, among the nodes of t', exactly those that are not in t. */
  predicate SelectsNew(t: Tables, t': Tables, sel: Selector) {
    SelectedIds(t', sel) == t'.nodes.Keys - t.nodes.Keys
  }

  lemma UndoneNodes(t: Tables, added: seq<Node>, g: Id, t': Tables, ids: set<Id>)
    requires AssignmentsOk(t) && DistinctIds(added) && (forall n | n in added :: n.id !in t.nodes)
    requires t'.nodes == t.nodes + ById(added) && t'.assignments == t.assignments + AssignAll(g, added)
    requires ids == t'.nodes.Keys - t.nodes.Keys
    ensures t'.nodes - ids == t.nodes && Without(t'.assignments, ids) == t.assignments
  {
    forall a | a in AssignAll(g, added) ensures a.node in ids {
      var i :| 0 <= i < |added| && AssignAll(g, added)[i] == a;
      assert added[i] in added;
    }
    WithoutAppended(t.assignments, AssignAll(g, added), ids);
  }

  lemma UndoneGroups(t: Tables, added: seq<Node>, g: Id, t': Tables, ids: set<Id>)
    requires AssignmentsOk(t) && added != []
    requires t'.assignments == t.assignments + AssignAll(g, added)
    requires forall a | a in t.assignments :: a.node !in ids
    requires forall n | n in added :: n.id in ids
    ensures Emptied(t', ids) == if Used(t, g) then {} else {g}
  {
    var extra := AssignAll(g, added);
    assert extra[0] in t'.assignments && added[0] in added;
    forall a | a in t'.assignments ensures a.node in ids ==> a.group == g {}
    assert forall b | b in t'.assignments && b.node !in ids :: b in t.assignments;
    if Used(t, g) {
      var a :| a in t.assignments && a.group == g;
      assert a in t'.assignments;
    }
  }

  /** Deleting what an add inserted gives the old map back; it gives the old
      tables back exactly when the add did not reuse a group without nodes. */
  lemma DeleteUndoesAdd(t: Tables, added: seq<Node>, c: Config, g: Id, t': Tables, sel: Selector)
    requires WellFormed(t) && AddsTo(t, added, c, g, t') && SelectsNew(t, t', sel)
    ensures WellFormed(t') && WellFormed(DeletedNodes(t', sel))
    ensures View(DeletedNodes(t', sel)) == View(t)
    ensures DeletedNodes(t', sel) == t <==> g !in Orphans(t)
  {
    var ids := SelectedIds(t', sel);
    AddRefinesExtension(t, added, c, t');
    DeleteRefinesRestriction(t', sel);
    SameMap(View(DeletedNodes(t', sel)), View(t));
    UndoneNodes(t, added, g, t', ids);
    UndoneGroups(t, added, g, t', ids);
    UndoneRows(t, added, c, g, t', sel);
  }

  lemma UndoneRows(t: Tables, added: seq<Node>, c: Config, g: Id, t': Tables, sel: Selector)
    requires WellFormed(t) && AddsTo(t, added, c, g, t')
    requires Emptied(t', SelectedIds(t', sel)) == if Used(t, g) then {} else {g}
    requires t'.nodes - SelectedIds(t', sel) == t.nodes
    requires Without(t'.assignments, SelectedIds(t', sel)) == t.assignments
    ensures DeletedNodes(t', sel) == t <==> g !in Orphans(t)
  {
    var u := DeletedNodes(t', sel);
    if Used(t, g) {
      assert g in t.groups;
      NothingRemoved(t');
    } else if g in t.groups {
      assert g !in u.groups;
    } else {
      PairRemoved(t, t', g);
    }
  }

  lemma PairRemoved(t: Tables, t': Tables, g: Id)
    requires g !in t.groups && g in t'.groups && t'.groups[g].configId !in t.configs
    requires t'.groups == t.groups[g := t'.groups[g]]
    requires t'.groups[g].configId in t'.configs
    requires t'.configs == t.configs[t'.groups[g].configId := t'.configs[t'.groups[g].configId]]
    ensures Removed(t', {}, {g}).groups == t.groups && Removed(t', {}, {g}).configs == t.configs
  {}

  /** A group without nodes that already holds the content. */
  ghost predicate OrphanHolds(t: Tables, c: Config) {
    exists g :: g in Orphans(t) && t.groups[g].configId in t.configs && ConfigAt(t, g) == c
  }

  /** Which nodes the selectors of an add find after it. */
  lemma SelectedAfter(t: Tables, sel: Selector, added: seq<Node>, t': Tables)
    requires KeyedById(t) && Numbered(Wanted(t, sel), added) && DistinctIds(added)
    requires t'.nodes == t.nodes + ById(added) && forall n | n in added :: n.id !in t.nodes
    ensures SelectedIds(t', FirstKind(sel)) == SelectedIds(t, FirstKind(sel)) + (t'.nodes.Keys - t.nodes.Keys)
  {
    forall id | id in t'.nodes && id !in t.nodes ensures Selects(FirstKind(sel), t'.nodes[id]) {
      var i := AddedRow(t, Wanted(t, sel), added, t', id);
      WantedSelected(t, sel, i, added[i]);
    }
  }

  lemma WhatAdded(t: Tables, bp: BootParams, t': Tables) returns (added: seq<Node>, g: Id)
    requires WellFormed(t) && AddStep(t, bp, t', Done)
    ensures Numbered(Wanted(t, bp.sel), added) && AddsTo(t, added, bp.config, g, t')
    ensures Adds(t, added, bp.config, t')
    ensures KeyedById(t) && DistinctIds(added) && added != [] && (forall n | n in added :: n.id !in t.nodes)
    ensures t'.nodes == t.nodes + ById(added)
    ensures SelectedIds(t', FirstKind(bp.sel)) == SelectedIds(t, FirstKind(bp.sel)) + (t'.nodes.Keys - t.nodes.Keys)
  {
    added :| Numbered(Wanted(t, bp.sel), added) && Adds(t, added, bp.config, t');
    g :| AddsTo(t, added, bp.config, g, t');
    SelectedAfter(t, bp.sel, added, t');
  }

  /** The selectors of an add find exactly the nodes that it inserted if and
      only if they found none before. */
  lemma SelectsNewIff(t: Tables, bp: BootParams, t': Tables)
    requires WellFormed(t) && AddStep(t, bp, t', Done)
    ensures SelectsNew(t, t', FirstKind(bp.sel)) <==> SelectedIds(t, FirstKind(bp.sel)) == {}
  {
    hide WellFormed, AddStep, AddsTo, Adds, Wanted, FirstKind;
    var added, g := WhatAdded(t, bp, t');
    assert SelectedIds(t, FirstKind(bp.sel)) <= t.nodes.Keys;
  }

  lemma SomethingDeleted(t: Tables, bp: BootParams, del: BootParams, t': Tables, t'': Tables, o: Outcome)
    requires WellFormed(t) && AddStep(t, bp, t', Done) && del.sel == bp.sel && DeleteStep(t', del, t'', o)
    ensures o == Done && t'' == DeletedNodes(t', FirstKind(bp.sel))
  {
    hide WellFormed, AddStep, AddsTo, Adds, DeletedNodes;
    var added, g := WhatAdded(t, bp, t');
    assert added[0] in added && added[0].id in t'.nodes;
  }

  /** A delete with the selectors of the add before it takes the added nodes
      out and the ones that they selected already; so it gives the old map back
      exactly when there were none. */
  lemma AddThenDelete(t: Tables, bp: BootParams, del: BootParams, t': Tables, t'': Tables, o: Outcome)
    requires WellFormed(t) && AddStep(t, bp, t', Done) && del.sel == bp.sel && DeleteStep(t', del, t'', o)
    ensures o == Done && WellFormed(t'')
    ensures View(t'') == RestrictedView(View(t), SelectedIds(t, FirstKind(bp.sel)))
    ensures View(t'') == View(t) <==> SelectedIds(t, FirstKind(bp.sel)) == {}
  {
    hide WellFormed, AddStep, DeleteStep, AddsTo, Adds, DeletedNodes, SelectedIds, FirstKind, Wanted;
    var sel := FirstKind(bp.sel);
    var added, g := WhatAdded(t, bp, t');
    SomethingDeleted(t, bp, del, t', t'', o);
    AddRefinesExtension(t, added, bp.config, t');
    DeleteRefinesRestriction(t', sel);
    AddedRestricted(t, added, bp.config, t', SelectedIds(t, sel));
    RestrictedSameIff(t, sel);
  }

  lemma AddedRestricted(t: Tables, added: seq<Node>, c: Config, t': Tables, ids: set<Id>)
    requires WellFormed(t) && DistinctIds(added) && t'.nodes == t.nodes + ById(added)
    requires forall n | n in added :: n.id !in t.nodes
    ensures RestrictedView(ExtendedView(View(t), added, c), ids + (t'.nodes.Keys - t.nodes.Keys))
            == RestrictedView(View(t), ids)
  {
    hide WellFormed;
    var gone := ids + (t'.nodes.Keys - t.nodes.Keys);
    forall n | n in added ensures n.id in gone { assert n.id in ById(added); }
    SameMap(RestrictedView(ExtendedView(View(t), added, c), gone), RestrictedView(View(t), ids));
  }

  lemma RestrictedSameIff(t: Tables, sel: Selector)
    requires WellFormed(t)
    ensures RestrictedView(View(t), SelectedIds(t, sel)) == View(t) <==> SelectedIds(t, sel) == {}
  {
    var ids := SelectedIds(t, sel);
    if ids == {} {
      SameMap(RestrictedView(View(t), ids), View(t));
    } else {
      var id :| id in ids;
      assert t.nodes[id] in View(t) && t.nodes[id] !in RestrictedView(View(t), ids);
    }
  }

  /** The add assigned its nodes to a group that no node was assigned to. */
  ghost predicate ReusesOrphan(t: Tables, t': Tables) {
    exists a :: a in t'.assignments && a.node !in t.nodes && a.group in Orphans(t)
  }

  lemma ReusesOrphanIff(t: Tables, added: seq<Node>, c: Config, g: Id, t': Tables)
    requires WellFormed(t) && AddsTo(t, added, c, g, t')
    ensures ReusesOrphan(t, t') <==> g in Orphans(t)
    ensures Deduplicated(t) ==> (g in Orphans(t) <==> OrphanHolds(t, c))
  {
    var a := AssignAll(g, added)[0];
    assert a in t'.assignments && added[0] in added && a.node !in t.nodes;
  }

  /** It gives the old tables back exactly when, besides, the add did not reuse
      a group without nodes; where no content is stored twice, that means when
      no such group held the requested configuration. */
  lemma AddThenDeleteRestoresIff(t: Tables, bp: BootParams, del: BootParams, t': Tables, t'': Tables, o: Outcome)
    requires WellFormed(t) && AddStep(t, bp, t', Done) && del.sel == bp.sel && DeleteStep(t', del, t'', o)
    ensures t'' == t <==> SelectedIds(t, FirstKind(bp.sel)) == {} && !ReusesOrphan(t, t')
    ensures Deduplicated(t) ==> (ReusesOrphan(t, t') <==> OrphanHolds(t, bp.config))
  {
    hide AddStep, DeleteStep, AddsTo, Adds, Wanted, Orphans, ReusesOrphan, Deduplicated, OrphanHolds;
    var added, g := WhatAdded(t, bp, t');
    SomethingDeleted(t, bp, del, t', t'', o);
    AddThenDelete(t, bp, del, t', t'', o);
    ReusesOrphanIff(t, added, bp.config, g, t');
    if SelectedIds(t, FirstKind(bp.sel)) == {} {
      SelectsNewIff(t, bp, t');
      DeleteUndoesAdd(t, added, bp.config, g, t', FirstKind(bp.sel));
    }
  }
}
