/** What holds after every run of the four operations from empty tables. */
module StoreRuns {
  import opened Tables
  import opened StoreSpec
  import opened StoreLaws
  import opened DeleteLaws
  import opened Requests
  import opened Identities
  import opened SetHits

  datatype Op = AddOp(bp: BootParams) | SetOp(bp: BootParams) | UpdateOp(bp: BootParams) | DeleteOp(bp: BootParams)

  ghost predicate Answers(t: Tables, op: Op, t': Tables, o: Outcome)
    requires WellFormed(t)
  {
    match op
      case AddOp(bp) => AddStep(t, bp, t', o)
      case SetOp(bp) => SetStep(t, bp, t', o)
      case UpdateOp(bp) => UpdateStep(t, bp, t', o)
      case DeleteOp(bp) => DeleteStep(t, bp, t', o)
  }

  ghost predicate Step(t: Tables, op: Op, t': Tables)
    requires WellFormed(t)
  {
    exists o :: Answers(t, op, t', o)
  }

  /** t is reached by some outcome of the requests; nothing is asked of a step
      from tables that are not well formed. */
  ghost predicate Reaches(ops: seq<Op>, t: Tables)
    decreases |ops|
  {
    if ops == [] then t == EMPTY
    else exists s :: Reaches(ops[..|ops| - 1], s) && (WellFormed(s) ==> Step(s, ops[|ops| - 1], t))
  }

  lemma EmptyOk()
    ensures WellFormed(EMPTY) && IdentitiesOk(EMPTY) && Deduplicated(EMPTY) && MacsLower(EMPTY)
  {}

  lemma DeleteStepKeeps(t: Tables, bp: BootParams, t': Tables, o: Outcome)
    requires WellFormed(t) && DeleteStep(t, bp, t', o)
    ensures WellFormed(t') && (Deduplicated(t) ==> Deduplicated(t'))
    ensures Submap(t'.nodes, t.nodes) && (MacsLower(t) ==> MacsLower(t'))
  {
    hide WellFormed, Emptied, GroupsWithItems, NodesOfGroups, SelectedIds;
    DeleteRefinesRestriction(t, FirstKind(bp.sel));
    DeleteItemsRefinesRestriction(t, bp.config);
  }

  lemma AddStepKeeps(t: Tables, bp: BootParams, t': Tables, o: Outcome)
    requires WellFormed(t) && AddStep(t, bp, t', o)
    ensures WellFormed(t') && (Deduplicated(t) ==> Deduplicated(t')) && (MacsLower(t) ==> MacsLower(t'))
    ensures IdentitiesOk(t) && DistinctNonBlank(Wanted(t, bp.sel)) ==> IdentitiesOk(t')
  {
    if o == Done {
      var added :| Numbered(Wanted(t, bp.sel), added) && Adds(t, added, bp.config, t');
      AddRefinesExtension(t, added, bp.config, t');
      AddKeepsDeduplicated(t, added, bp.config, t');
      AddStepIdentities(t, bp, added, t');
    }
  }

  lemma AddStepIdentities(t: Tables, bp: BootParams, added: seq<Node>, t': Tables)
    requires WellFormed(t) && Numbered(Wanted(t, bp.sel), added) && Adds(t, added, bp.config, t')
    ensures IdentitiesOk(t) && DistinctNonBlank(Wanted(t, bp.sel)) ==> IdentitiesOk(t')
    ensures MacsLower(t) ==> MacsLower(t')
  {
    var g :| AddsTo(t, added, bp.config, g, t');
    if IdentitiesOk(t) { AddKeepsIdentitiesIff(t, bp.sel, added, t'); }
    if MacsLower(t) { AddKeepsMacsLower(t, bp.sel, added, t'); }
  }

  lemma UpdateStepKeeps(t: Tables, bp: BootParams, t': Tables, o: Outcome)
    requires WellFormed(t) && UpdateStep(t, bp, t', o)
    ensures WellFormed(t') && t'.nodes == t.nodes
  {
    if o == Done {
      UpdateRefinesOverlay(t, bp.sel, bp.config, t');
      var plan :| UpdatesBy(t, bp.sel, bp.config, plan, t');
    }
  }

  lemma SetStepKeeps(t: Tables, bp: BootParams, t': Tables, o: Outcome)
    requires WellFormed(t) && SetStep(t, bp, t', o)
    ensures WellFormed(t') && (MacsLower(t) ==> MacsLower(t'))
    ensures IdentitiesOk(t) && DistinctNonBlank(Wanted(t, Missing(t, bp.sel))) ==> IdentitiesOk(t')
  {
    if !bp.config.Blank() {
      var mid, upd, oa :| SetVia(t, bp, mid, upd, oa, t', o);
      var missing := Missing(t, bp.sel);
      if !missing.Everything() { AddStepKeeps(t, BootParams(missing, bp.config), mid, oa); }
      if oa == Done && SelectedIds(t, bp.sel) != {} { UpdateStepKeeps(mid, BootParams(upd, bp.config), t', o); }
    }
  }

  lemma StepKeepsWellFormed(t: Tables, op: Op, t': Tables)
    requires WellFormed(t) && Step(t, op, t')
    ensures WellFormed(t') && (MacsLower(t) ==> MacsLower(t'))
  {
    var o :| Answers(t, op, t', o);
    match op
    case AddOp(bp) => AddStepKeeps(t, bp, t', o);
    case SetOp(bp) => SetStepKeeps(t, bp, t', o);
    case UpdateOp(bp) => UpdateStepKeeps(t, bp, t', o);
    case DeleteOp(bp) => DeleteStepKeeps(t, bp, t', o);
  }

  /** No run of the four operations, whatever the requests, leaves a node
      without exactly one group and config, a config without its one group, a
      group named after something else, or a MAC in upper case. */
  lemma {:induction false} EveryRunIsWellFormed(ops: seq<Op>, t: Tables)
    requires Reaches(ops, t)
    ensures WellFormed(t) && MacsLower(t)
    decreases |ops|
  {
    if ops == [] {
      EmptyOk();
    } else {
      var s :| Reaches(ops[..|ops| - 1], s) && (WellFormed(s) ==> Step(s, ops[|ops| - 1], t));
      EveryRunIsWellFormed(ops[..|ops| - 1], s);
      StepKeepsWellFormed(s, ops[|ops| - 1], t);
    }
  }

  predicate AddOrDelete(op: Op) { op.AddOp? || op.DeleteOp? }

  /** Runs of Add and Delete never store the same content in two groups. */
  lemma {:induction false} AddDeleteRunsStayDeduplicated(ops: seq<Op>, t: Tables)
    requires Reaches(ops, t) && forall op | op in ops :: AddOrDelete(op)
    ensures WellFormed(t) && Deduplicated(t)
    decreases |ops|
  {
    if ops == [] {
      EmptyOk();
    } else {
      var last := ops[|ops| - 1];
      var s :| Reaches(ops[..|ops| - 1], s) && (WellFormed(s) ==> Step(s, last, t));
      AddDeleteRunsStayDeduplicated(ops[..|ops| - 1], s);
      assert last in ops;
      var o :| Answers(s, last, t, o);
      if last.AddOp? { AddStepKeeps(s, last.bp, t, o); } else { DeleteStepKeeps(s, last.bp, t, o); }
    }
  }

  // ------------------------------------------------------------- identities

  predicate NoRepeat<T(==)>(s: seq<T>) { forall i, j | 0 <= i < j < |s| :: s[i] != s[j] }

  predicate NoRepeatMacs(macs: seq<string>) {
    forall i, j | 0 <= i < j < |macs| :: Lower(macs[i]) != Lower(macs[j])
  }

  predicate NonBlankSelectors(sel: Selector) {
    "" !in sel.macs && "" !in sel.xnames && 0 !in sel.nids
  }

  /** Every identity of the request is non-blank and named once, MACs compared
      without case. */
  predicate PlainRequest(sel: Selector) {
    && NonBlankSelectors(sel)
    && NoRepeatMacs(sel.macs) && NoRepeat(sel.xnames) && NoRepeat(sel.nids)
  }

  lemma MissingKeepPlain(t: Tables, sel: Selector)
    requires PlainRequest(sel)
    ensures PlainRequest(Missing(t, sel))
    decreases |sel.macs| + |sel.xnames| + |sel.nids|
  {
    MissingMacsPlain(t, sel.macs);
    MissingXnamesPlain(t, sel.xnames);
    MissingNidsPlain(t, sel.nids);
    var m := Missing(t, sel);
    assert 0 !in m.nids;
  }

  lemma MissingMacsPlain(t: Tables, macs: seq<string>)
    requires NoRepeatMacs(macs)
    ensures NoRepeatMacs(MissingMacs(t, macs))
  {
    if macs != [] {
      var rest := macs[..|macs| - 1];
      MissingMacsPlain(t, rest);
      var r := MissingMacs(t, rest);
      forall i | 0 <= i < |r| ensures Lower(r[i]) != Lower(macs[|macs| - 1]) { assert r[i] in r; }
    }
  }

  lemma MissingXnamesPlain(t: Tables, xnames: seq<string>)
    requires NoRepeat(xnames)
    ensures NoRepeat(MissingXnames(t, xnames))
  {}

  lemma MissingNidsPlain(t: Tables, nids: seq<int>)
    requires NoRepeat(nids)
    ensures NoRepeat(MissingNids(t, nids))
  {}

  lemma PlainWanted(t: Tables, sel: Selector)
    requires PlainRequest(sel)
    ensures DistinctNonBlank(Wanted(t, sel))
  {
    MissingKeepPlain(t, FirstKind(sel));
    var m := Missing(t, FirstKind(sel));
    var w := Wanted(t, sel);
    forall i | 0 <= i < |w| ensures HasIdentity(w[i]) {
      if sel.xnames != [] { assert m.xnames[i] in m.xnames; }
      else if sel.macs != [] { assert m.macs[i] in m.macs; LowerNonBlank(m.macs[i]); }
      else { var n := m.nids[i]; assert n in m.nids; }
    }
  }

  lemma LowerNonBlank(s: string)
    requires s != ""
    ensures Lower(s) != ""
  {}

  predicate PlainOp(op: Op) {
    match op
    case AddOp(bp) => PlainRequest(bp.sel)
    case SetOp(bp) => PlainRequest(bp.sel)
    case _ => true
  }

  /** In runs whose adds name each identity once and none blank, every MAC,
      xname and NID leads to at most one node. */
  lemma {:induction false} PlainRunsKeepIdentities(ops: seq<Op>, t: Tables)
    requires Reaches(ops, t) && forall op | op in ops :: PlainOp(op)
    ensures WellFormed(t) && IdentitiesOk(t)
    decreases |ops|
  {
    if ops == [] {
      EmptyOk();
    } else {
      var last := ops[|ops| - 1];
      var s :| Reaches(ops[..|ops| - 1], s) && (WellFormed(s) ==> Step(s, last, t));
      PlainRunsKeepIdentities(ops[..|ops| - 1], s);
      assert PlainOp(last);
      PlainStepKeepsIdentities(s, last, t);
    }
  }

  /** So in such runs every Set updates exactly the nodes it selects. */
  lemma PlainRunsSeparate(ops: seq<Op>, t: Tables, sel: Selector)
    requires Reaches(ops, t) && forall op | op in ops :: PlainOp(op)
    ensures Separates(t, sel) && HitsSelected(t, sel)
  {
    PlainRunsKeepIdentities(ops, t);
    IdentitiesSeparate(t, sel);
    HitsSelectedIff(t, sel);
  }

  lemma PlainStepKeepsIdentities(s: Tables, op: Op, t: Tables)
    requires WellFormed(s) && IdentitiesOk(s) && Step(s, op, t) && PlainOp(op)
    ensures WellFormed(t) && IdentitiesOk(t)
  {
    var o :| Answers(s, op, t, o);
    match op
    case AddOp(bp) =>
      PlainWanted(s, bp.sel);
      AddStepKeeps(s, bp, t, o);
    case SetOp(bp) =>
      MissingKeepPlain(s, bp.sel);
      PlainWanted(s, Missing(s, bp.sel));
      SetStepKeeps(s, bp, t, o);
    case UpdateOp(bp) => UpdateStepKeeps(s, bp, t, o);
    case DeleteOp(bp) => DeleteStepKeeps(s, bp, t, o);
  }
}
