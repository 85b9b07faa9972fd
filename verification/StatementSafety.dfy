/** What a reader sees between two SQL statements of one operation. */
module StatementSafety {
  import opened Tables
  import opened StoreSpec
  import opened StoreLaws
  import opened DeleteLaws
  import opened Requests
  import opened Identities
  import opened SetHits
  import opened SetLaws

  /** Every node of t resolves in s as it did in t. */
  ghost predicate KeepsAll(t: Tables, s: Tables)
    requires WellFormed(t)
  {
    forall n | n in View(t) :: ResolvesTo(s, n, View(t)[n])
  }

  /** Every node of t that is not being deleted resolves in s as it did in t. */
  ghost predicate KeepsOthers(t: Tables, ids: set<Id>, s: Tables)
    requires WellFormed(t)
  {
    forall n | n in View(t) && n.id !in ids :: ResolvesTo(s, n, View(t)[n])
  }

  /** Every node resolves to its old configuration or, if it is selected, to
      the overlay of it; never to nothing and never to anything else. */
  ghost predicate OldOrNew(t: Tables, sel: Selector, patch: Config, s: Tables)
    requires WellFormed(t)
  {
    forall n | n in View(t) ::
      ResolvesTo(s, n, View(t)[n]) || (Selects(sel, n) && ResolvesTo(s, n, Overlay(View(t)[n], patch)))
  }

  // ---------------------------------------------------------------------- Add

  /** s is t with rows inserted, and no assignment among them is for an old
      node. */
  predicate Extends(t: Tables, s: Tables) {
    && Submap(t.nodes, s.nodes) && Submap(t.groups, s.groups) && Submap(t.configs, s.configs)
    && t.assignments <= s.assignments
    && forall i | |t.assignments| <= i < |s.assignments| :: s.assignments[i].node !in t.nodes
  }

  lemma {:induction false} ExtendsKeepsNode(t: Tables, s: Tables, n: Node)
    requires WellFormed(t) && Extends(t, s) && n in View(t)
    ensures ResolvesTo(s, n, View(t)[n])
  {
    hide GroupsOk, KeyedById;
    var a := Assignment(GroupOf(t, n.id), n.id);
    StoredIn(t, s, a.group);
    assert a in s.assignments;
    forall b | b in s.assignments && b.node == n.id ensures Leads(s, b, View(t)[n]) {
      var i :| 0 <= i < |s.assignments| && s.assignments[i] == b;
      assert i < |t.assignments| && t.assignments[i] == b;
      GroupOfUnique(t, b);
    }
  }

  lemma ExtendsKeepsAll(t: Tables, s: Tables)
    requires WellFormed(t) && Extends(t, s)
    ensures KeepsAll(t, s)
  {
    forall n | n in View(t) ensures ResolvesTo(s, n, View(t)[n]) { ExtendsKeepsNode(t, s, n); }
  }

  // ------------------------------------------------------------------- Update

  /** An assignment that has not moved, or has moved to where the overlay is. */
  predicate StayedOrMoved(t: Tables, sel: Selector, patch: Config, s: Tables, a: Assignment, b: Assignment)
    requires a.group in t.groups && t.groups[a.group].configId in t.configs
  {
    || b == a
    || (b.node == a.node && SelectsId(t, sel, a.node) && Leads(s, b, Overlay(ConfigAt(t, a.group), patch)))
  }

  ghost predicate MidUpdate(t: Tables, sel: Selector, patch: Config, s: Tables)
    requires WellFormed(t)
  {
    && s.nodes == t.nodes
    && Submap(t.groups, s.groups) && Submap(t.configs, s.configs)
    && |s.assignments| == |t.assignments|
    && forall i | 0 <= i < |t.assignments| ::
         (t.assignments[i].group in t.groups && t.groups[t.assignments[i].group].configId in t.configs)
         && StayedOrMoved(t, sel, patch, s, t.assignments[i], s.assignments[i])
  }

  lemma SameNodesOnlyOne(before: seq<Assignment>, after: seq<Assignment>, i: nat, d: Assignment)
    requires DistinctNodes(before) && |after| == |before| && i < |before|
    requires forall j | 0 <= j < |before| :: after[j].node == before[j].node
    requires d in after && d.node == before[i].node
    ensures d == after[i]
  {}

  lemma OnlyAssignmentResolves(s: Tables, n: Node, b: Assignment, c: Config)
    requires n.id in s.nodes && s.nodes[n.id] == n && b in s.assignments && b.node == n.id && Leads(s, b, c)
    requires forall d | d in s.assignments && d.node == n.id :: d == b
    ensures ResolvesTo(s, n, c)
  {}

  /** Where the one assignment of a node is between two statements. */
  lemma MidUpdateAssignment(t: Tables, sel: Selector, patch: Config, s: Tables, a: Assignment) returns (b: Assignment)
    requires WellFormed(t) && MidUpdate(t, sel, patch, s) && a in t.assignments && a.group in t.groups
    requires t.groups[a.group].configId in t.configs
    ensures b in s.assignments && b.node == a.node && StayedOrMoved(t, sel, patch, s, a, b)
    ensures forall d | d in s.assignments && d.node == a.node :: d == b
  {
    var i :| 0 <= i < |t.assignments| && t.assignments[i] == a;
    b := s.assignments[i];
    forall d | d in s.assignments && d.node == a.node ensures d == b {
      SameNodesOnlyOne(t.assignments, s.assignments, i, d);
    }
  }

  lemma MidUpdateNode(t: Tables, sel: Selector, patch: Config, s: Tables, n: Node)
    requires WellFormed(t) && MidUpdate(t, sel, patch, s) && n in View(t)
    ensures ResolvesTo(s, n, View(t)[n]) || (Selects(sel, n) && ResolvesTo(s, n, Overlay(View(t)[n], patch)))
  {
    var a := Assignment(GroupOf(t, n.id), n.id);
    StoredIn(t, s, a.group);
    var b := MidUpdateAssignment(t, sel, patch, s, a);
    OnlyAssignmentResolves(s, n, b, if b == a then View(t)[n] else Overlay(View(t)[n], patch));
  }

  lemma MidUpdateOldOrNew(t: Tables, sel: Selector, patch: Config, s: Tables)
    requires WellFormed(t) && MidUpdate(t, sel, patch, s)
    ensures OldOrNew(t, sel, patch, s)
  {
    forall n | n in View(t)
      ensures ResolvesTo(s, n, View(t)[n]) || (Selects(sel, n) && ResolvesTo(s, n, Overlay(View(t)[n], patch)))
    {
      MidUpdateNode(t, sel, patch, s, n);
    }
  }

  // ------------------------------------------------------------------- Delete

  /** s is t with some of these nodes, assignments, groups and configs gone. */
  ghost predicate MidDelete(t: Tables, nodeIds: set<Id>, groupIds: set<Id>, s: Tables) {
    && (forall id | id in t.nodes && id !in nodeIds :: id in s.nodes && s.nodes[id] == t.nodes[id])
    && (forall a | a in t.assignments && a.node !in nodeIds :: a in s.assignments)
    && (forall a | a in s.assignments :: a in t.assignments)
    && (forall g | g in t.groups && g !in groupIds ::
          g in s.groups && s.groups[g] == t.groups[g]
          && (t.groups[g].configId in t.configs ==>
                t.groups[g].configId in s.configs
                && s.configs[t.groups[g].configId] == t.configs[t.groups[g].configId]))
  }

  lemma MidDeleteNode(t: Tables, nodeIds: set<Id>, groupIds: set<Id>, s: Tables, n: Node)
    requires WellFormed(t) && Closed(t, nodeIds, groupIds) && MidDelete(t, nodeIds, groupIds, s)
    requires n in View(t) && n.id !in nodeIds
    ensures ResolvesTo(s, n, View(t)[n])
  {
    var a := Assignment(GroupOf(t, n.id), n.id);
    assert GroupOk(t, t.groups[a.group]);
    assert a in s.assignments;
    forall b | b in s.assignments && b.node == n.id ensures b == a { GroupOfUnique(t, b); }
  }

  lemma MidDeleteKeepsOthers(t: Tables, nodeIds: set<Id>, groupIds: set<Id>, s: Tables)
    requires WellFormed(t) && Closed(t, nodeIds, groupIds) && MidDelete(t, nodeIds, groupIds, s)
    ensures KeepsOthers(t, nodeIds, s)
  {
    forall n | n in View(t) && n.id !in nodeIds ensures ResolvesTo(s, n, View(t)[n]) {
      MidDeleteNode(t, nodeIds, groupIds, s, n);
    }
  }

  // ---------------------------------------------------------------------- Set

  /** Every node resolves to its old configuration or, if Set hits it, to the
      overlay of it. */
  ghost predicate OldOrHit(t: Tables, sel: Selector, patch: Config, s: Tables)
    requires WellFormed(t)
  {
    forall n | n in View(t) ::
      ResolvesTo(s, n, View(t)[n]) || (Hit(t, sel, n) && ResolvesTo(s, n, Overlay(View(t)[n], patch)))
  }

  lemma KeptIsOldOrHit(t: Tables, sel: Selector, patch: Config, stages: seq<Tables>)
    requires WellFormed(t) && forall s | s in stages :: KeepsAll(t, s)
    ensures forall s | s in stages :: OldOrHit(t, sel, patch, s)
  {}

  /** What the first half of Set leaves behind. */
  ghost predicate MidSet(t: Tables, bp: BootParams, mid: Tables, oa: Outcome)
    requires WellFormed(t)
  {
    if Missing(t, bp.sel).Everything() then oa == Done && mid == t
    else AddStep(t, BootParams(Missing(t, bp.sel), bp.config), mid, oa)
  }

  lemma HalvesAreSet(t: Tables, bp: BootParams, mid: Tables, upd: Selector, oa: Outcome, t': Tables, o: Outcome)
    requires WellFormed(t) && !bp.config.Blank() && Rebuilt(t, bp.sel, upd) && MidSet(t, bp, mid, oa)
    requires if oa.Refused? || SelectedIds(t, bp.sel) == {} then t' == mid && o == oa
             else WellFormed(mid) && UpdateStep(mid, BootParams(upd, bp.config), t', o)
    ensures SetStep(t, bp, t', o)
  {
    assert SetVia(t, bp, mid, upd, oa, t', o);
  }

  lemma MidSetKeeps(t: Tables, bp: BootParams, mid: Tables)
    requires WellFormed(t) && MidSet(t, bp, mid, Done)
    ensures WellFormed(mid) && forall n | n in View(t) :: n in View(mid) && View(mid)[n] == View(t)[n]
  {
    hide WellFormed, AddStep, Missing, SetAdds;
    var added := SetMid(t, bp, mid, Done);
  }

  /** A table on the way of the update inside Set, seen from before the add. */
  lemma OldOrHitThroughAdd(t: Tables, bp: BootParams, upd: Selector, mid: Tables, s: Tables)
    requires WellFormed(t) && WellFormed(mid) && MacsLower(t)
    requires Rebuilt(t, bp.sel, upd) && SelectedIds(t, bp.sel) != {}
    requires forall n | n in View(t) :: n in View(mid) && View(mid)[n] == View(t)[n]
    requires OldOrNew(mid, upd, bp.config, s)
    ensures OldOrHit(t, bp.sel, bp.config, s)
  {
    forall n | n in View(t)
      ensures ResolvesTo(s, n, View(t)[n]) || (Hit(t, bp.sel, n) && ResolvesTo(s, n, Overlay(View(t)[n], bp.config)))
    {
      RebuiltFindsHits(t, bp.sel, upd, n);
    }
  }

  /** Between any two statements of the update inside Set every node that was
      there before the add resolves to its old configuration or, if it is hit,
      to its overlay. */
  lemma SetStagesSafe(t: Tables, bp: BootParams, mid: Tables, upd: Selector, stages: seq<Tables>)
    requires WellFormed(t) && WellFormed(mid) && MacsLower(t)
    requires Rebuilt(t, bp.sel, upd) && SelectedIds(t, bp.sel) != {} && MidSet(t, bp, mid, Done)
    requires forall s | s in stages :: OldOrNew(mid, upd, bp.config, s)
    ensures forall s | s in stages :: OldOrHit(t, bp.sel, bp.config, s)
  {
    MidSetKeeps(t, bp, mid);
    forall s | s in stages ensures OldOrHit(t, bp.sel, bp.config, s) {
      OldOrHitThroughAdd(t, bp, upd, mid, s);
    }
  }

  /** Nodes with identities of their own are hit exactly when selected. */
  lemma HitMeansSelected(t: Tables, sel: Selector, patch: Config, s: Tables)
    requires WellFormed(t) && Separates(t, sel)
    ensures OldOrHit(t, sel, patch, s) <==> OldOrNew(t, sel, patch, s)
  {
    HitsSelectedIff(t, sel);
    forall n | n in View(t) ensures Hit(t, sel, n) <==> Selects(sel, n) { assert t.nodes[n.id] == n; }
  }
}
