/** Runs of the four operations as runs on a plain map from nodes to
    configurations, which knows neither groups nor assignments. */
module StoreRefinement {
  import opened AddDelete
  import opened Common
  import opened DeleteLaws
  import opened Identities
  import opened Requests
  import opened SetHits
  import opened SetLaws
  import opened StoreLaws
  import opened StoreRuns
  import opened StoreSpec
  import opened Tables

  type Boots = map<Node, Config>

  // ------------------------------------------------- the operations on a map

  ghost function Ids(v: Boots): set<Id> { set n | n in v :: n.id }

  ghost function RowOf(v: Boots, id: Id): (n: Node)
    requires id in Ids(v)
    ensures n in v && n.id == id
  {
    var n :| n in v && n.id == id; n
  }

  /** Tables with these nodes and nothing else: all that the request of an
      operation is compared with. */
  ghost function Rows(v: Boots): Tables {
    Tables(map id | id in Ids(v) :: RowOf(v, id), [], map[], map[])
  }

  predicate FreshRows(v: Boots, added: seq<Node>) {
    DistinctIds(added) && forall n | n in added :: n.id != BLANK_ID && forall m | m in v :: m.id != n.id
  }

  ghost predicate SimpleAdd(v: Boots, bp: BootParams, v': Boots, o: Outcome) {
    var wanted := Wanted(Rows(v), bp.sel);
    if wanted == [] then o == Refused(Duplicate) && v' == v
    else if bp.config.kernel == "" then o == Refused(BlankKernel) && v' == v
    else o == Done && exists added ::
      Numbered(wanted, added) && FreshRows(v, added) && v' == ExtendedView(v, added, bp.config)
  }

  ghost predicate SimpleUpdate(v: Boots, bp: BootParams, v': Boots, o: Outcome) {
    var missing := Missing(Rows(v), bp.sel);
    if !missing.Everything() then o == Refused(NotExists(missing)) && v' == v
    else if bp.config.Blank() then o == Refused(BlankPatch) && v' == v
    else if !AnySelected(v, bp.sel) then o == Refused(NoNodeIds) && v' == v
    else o == Done && v' == OverlaidView(v, bp.sel, bp.config)
  }

  ghost predicate SimpleSet(v: Boots, bp: BootParams, v': Boots, o: Outcome) {
    if bp.config.Blank() then o == Refused(BlankPatch) && v' == v
    else if !Missing(Rows(v), bp.sel).Everything() && bp.config.kernel == "" then
      o == Refused(BlankKernel) && v' == v
    else o == Done && exists added ::
      SetAdds(Rows(v), bp.sel, added) && FreshRows(v, added)
      && v' == ExtendedView(HitView(Rows(v), v, bp.sel, bp.config), added, bp.config)
  }

  predicate AnySelected(v: Boots, sel: Selector) { exists n :: n in v && Selects(sel, n) }

  ghost function UnselectedView(v: Boots, sel: Selector): Boots { map n | n in v && !Selects(sel, n) :: v[n] }

  ghost predicate SimpleDelete(v: Boots, bp: BootParams, v': Boots, o: Outcome) {
    if !bp.sel.Everything() then
      if !AnySelected(v, FirstKind(bp.sel)) then o == Refused(NothingSelected) && v' == v
      else o == Done && v' == UnselectedView(v, FirstKind(bp.sel))
    else o == Done && v' == if bp.config.Blank() then v else UnmatchedView(v, bp.config)
  }

  ghost predicate SimpleAnswers(v: Boots, op: Op, v': Boots, o: Outcome) {
    match op
      case AddOp(bp) => SimpleAdd(v, bp, v', o)
      case SetOp(bp) => SimpleSet(v, bp, v', o)
      case UpdateOp(bp) => SimpleUpdate(v, bp, v', o)
      case DeleteOp(bp) => SimpleDelete(v, bp, v', o)
  }

  ghost predicate SimpleStep(v: Boots, op: Op, v': Boots) {
    exists o :: SimpleAnswers(v, op, v', o)
  }

  /** v is what some run of the simple operations makes of the empty map. */
  ghost predicate Yields(ops: seq<Op>, v: Boots)
    decreases |ops|
  {
    if ops == [] then v == map[]
    else
      var before, last := ops[..|ops| - 1], ops[|ops| - 1];
      exists u :: Yields(before, u) && SimpleStep(u, last, v)
  }

  // ------------------------------------------- requests look at nodes only

  lemma SameMissing(t: Tables, s: Tables, sel: Selector)
    requires t.nodes == s.nodes
    ensures Missing(t, sel) == Missing(s, sel) && Wanted(t, sel) == Wanted(s, sel)
  {
    SameMissingMacs(t, s, sel.macs);
    SameMissingXnames(t, s, sel.xnames);
    SameMissingNids(t, s, sel.nids);
    assert Missing(t, FirstKind(sel)) == Missing(s, FirstKind(sel));
  }

  lemma SameMissingMacs(t: Tables, s: Tables, macs: seq<string>)
    requires t.nodes == s.nodes
    ensures MissingMacs(t, macs) == MissingMacs(s, macs)
  {
    if macs != [] { SameMissingMacs(t, s, macs[..|macs| - 1]); }
  }

  lemma SameMissingXnames(t: Tables, s: Tables, xnames: seq<string>)
    requires t.nodes == s.nodes
    ensures MissingXnames(t, xnames) == MissingXnames(s, xnames)
  {
    if xnames != [] { SameMissingXnames(t, s, xnames[..|xnames| - 1]); }
  }

  lemma SameMissingNids(t: Tables, s: Tables, nids: seq<int>)
    requires t.nodes == s.nodes
    ensures MissingNids(t, nids) == MissingNids(s, nids)
  {
    if nids != [] { SameMissingNids(t, s, nids[..|nids| - 1]); }
  }

  lemma SameHit(t: Tables, s: Tables, sel: Selector, n: Node)
    requires t.nodes == s.nodes
    ensures Hit(t, sel, n) <==> Hit(s, sel, n)
  {
    assert SelectedIds(t, sel) == SelectedIds(s, sel);
    assert forall id :: SelectsId(t, sel, id) <==> SelectsId(s, sel, id);
  }

  lemma SameHitView(t: Tables, s: Tables, v: Boots, sel: Selector, c: Config)
    requires t.nodes == s.nodes
    ensures HitView(t, v, sel, c) == HitView(s, v, sel, c)
  {
    forall n | n in v ensures Hit(t, sel, n) <==> Hit(s, sel, n) { SameHit(t, s, sel, n); }
    SameMap(HitView(t, v, sel, c), HitView(s, v, sel, c));
  }

  lemma RowsOfView(t: Tables)
    requires WellFormed(t)
    ensures Rows(View(t)).nodes == t.nodes
  {
    var v := View(t);
    forall id | id in t.nodes ensures id in Ids(v) { assert t.nodes[id] in v; }
  }

  lemma FreshInView(t: Tables, added: seq<Node>)
    requires WellFormed(t) && DistinctIds(added)
    requires forall n | n in added :: n.id !in t.nodes && n.id != BLANK_ID
    ensures FreshRows(View(t), added)
  {}

  lemma AnySelectedIff(t: Tables, sel: Selector)
    requires WellFormed(t)
    ensures AnySelected(View(t), sel) <==> SelectedIds(t, sel) != {}
  {
    if SelectedIds(t, sel) != {} {
      var id :| id in SelectedIds(t, sel);
      assert t.nodes[id] in View(t);
    }
    if AnySelected(View(t), sel) {
      var n :| n in View(t) && Selects(sel, n);
      assert n.id in SelectedIds(t, sel);
    }
  }

  // -------------------------------------------------------------- refinement

  lemma AddRefines(t: Tables, bp: BootParams, t': Tables, o: Outcome)
    requires WellFormed(t) && AddStep(t, bp, t', o)
    ensures WellFormed(t') && SimpleAdd(View(t), bp, View(t'), o)
  {
    RowsOfView(t);
    SameMissing(t, Rows(View(t)), bp.sel);
    if o == Done {
      var added, g := WhatAdded(t, bp, t');
      AddRefinesExtension(t, added, bp.config, t');
      FreshInView(t, added);
    }
  }

  lemma UpdateRefines(t: Tables, bp: BootParams, t': Tables, o: Outcome)
    requires WellFormed(t) && UpdateStep(t, bp, t', o)
    ensures WellFormed(t') && SimpleUpdate(View(t), bp, View(t'), o)
  {
    RowsOfView(t);
    SameMissing(t, Rows(View(t)), bp.sel);
    AnySelectedIff(t, bp.sel);
    if o == Done { UpdateRefinesOverlay(t, bp.sel, bp.config, t'); }
  }

  lemma SetRefinesSimple(t: Tables, bp: BootParams, t': Tables, o: Outcome)
    requires WellFormed(t) && MacsLower(t) && SetStep(t, bp, t', o)
    ensures WellFormed(t') && SimpleSet(View(t), bp, View(t'), o)
  {
    hide SetStep, Rows;
    var rows := Rows(View(t));
    RowsOfView(t);
    SameMissing(t, rows, bp.sel);
    var added := SetRefines(t, bp, t', o);
    if o == Done {
      SameMissing(t, rows, Missing(t, bp.sel));
      SameHitView(t, rows, View(t), bp.sel, bp.config);
      FreshInView(t, added);
    }
  }

  lemma DeleteRefines(t: Tables, bp: BootParams, t': Tables, o: Outcome)
    requires WellFormed(t) && DeleteStep(t, bp, t', o)
    ensures WellFormed(t') && SimpleDelete(View(t), bp, View(t'), o)
  {
    var sel := FirstKind(bp.sel);
    AnySelectedIff(t, sel);
    DeleteRefinesRestriction(t, sel);
    DeleteItemsRefinesRestriction(t, bp.config);
    SameMap(RestrictedView(View(t), SelectedIds(t, sel)), UnselectedView(View(t), sel));
  }

  /** Every operation answers as the simple one does and does the same to the
      map. */
  lemma StepRefines(t: Tables, op: Op, t': Tables, o: Outcome)
    requires WellFormed(t) && MacsLower(t) && Answers(t, op, t', o)
    ensures WellFormed(t') && SimpleAnswers(View(t), op, View(t'), o)
  {
    match op
    case AddOp(bp) => AddRefines(t, bp, t', o);
    case SetOp(bp) => SetRefinesSimple(t, bp, t', o);
    case UpdateOp(bp) => UpdateRefines(t, bp, t', o);
    case DeleteOp(bp) => DeleteRefines(t, bp, t', o);
  }

  /** Whatever the requests, the map that the tables mean after a run is one
      that the same run of the simple operations yields. */
  lemma {:induction false} EveryRunRefines(ops: seq<Op>, t: Tables)
    requires Reaches(ops, t)
    ensures WellFormed(t) && Yields(ops, View(t))
    decreases |ops|
  {
    EveryRunIsWellFormed(ops, t);
    if ops != [] {
      var before, last := ops[..|ops| - 1], ops[|ops| - 1];
      var s :| Reaches(before, s) && (WellFormed(s) ==> Step(s, last, t));
      EveryRunIsWellFormed(before, s);
      EveryRunRefines(before, s);
      var o :| Answers(s, last, t, o);
      StepRefines(s, last, t, o);
      assert SimpleStep(View(s), last, View(t));
    }
  }
}
