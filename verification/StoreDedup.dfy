/** When the four operations store the same content in two groups. */
module StoreDedup {
  import opened AddDelete
  import opened Identities
  import opened Requests
  import opened SetHits
  import opened SetLaws
  import opened StoreLaws
  import opened StoreRuns
  import opened StoreSpec
  import opened Tables

  /** The patch merges two of these groups into content that no group holds and
      that is not among the extra ones. */
  ghost predicate Merges(t: Tables, gs: set<Id>, patch: Config, extra: set<Config>)
    requires WellFormed(t)
  {
    exists g, h :: g in gs && h in gs && g != h && g in t.groups && h in t.groups
      && Overlay(ConfigAt(t, g), patch) == Overlay(ConfigAt(t, h), patch)
      && !Stored(t, Overlay(ConfigAt(t, g), patch)) && Overlay(ConfigAt(t, g), patch) !in extra
  }

  lemma CollapsesIsMerges(t: Tables, sel: Selector, patch: Config)
    requires WellFormed(t)
    ensures Collapses(t, sel, patch) <==> Merges(t, Touched(t, sel), patch, {})
  {}

  // ------------------------------------------------------------------- Update

  /** The update is accepted, and merges two of the groups it touches. */
  ghost predicate UpdateCollapses(t: Tables, bp: BootParams)
    requires WellFormed(t)
  {
    && Missing(t, bp.sel).Everything() && !bp.config.Blank() && SelectedIds(t, bp.sel) != {}
    && Collapses(t, bp.sel, bp.config)
  }

  lemma UpdateStepDeduplicatedIff(t: Tables, bp: BootParams, t': Tables, o: Outcome)
    requires WellFormed(t) && Deduplicated(t) && UpdateStep(t, bp, t', o)
    ensures WellFormed(t') && (Deduplicated(t') <==> !UpdateCollapses(t, bp))
  {
    if o == Done {
      UpdateRefinesOverlay(t, bp.sel, bp.config, t');
      UpdateKeepsDeduplicatedIff(t, bp.sel, bp.config, t');
    }
  }

  // ---------------------------------------------------------------------- Set

  /** The groups of the nodes that Set hits. */
  ghost function HitTouched(t: Tables, sel: Selector): set<Id> {
    set a | a in t.assignments && a.node in t.nodes && Hit(t, sel, t.nodes[a.node]) :: a.group
  }

  /** The set is accepted, and merges two of the groups it hits into content that
      is not stored, not even by the add inside it. */
  ghost predicate SetCollapses(t: Tables, bp: BootParams)
    requires WellFormed(t)
  {
    var adds := !Missing(t, bp.sel).Everything();
    && !bp.config.Blank() && (adds ==> bp.config.kernel != "")
    && Merges(t, HitTouched(t, bp.sel), bp.config, if adds then {bp.config} else {})
  }

  lemma TouchedIsHit(t: Tables, sel: Selector, upd: Selector)
    requires MacsLower(t) && Rebuilt(t, sel, upd) && SelectedIds(t, sel) != {}
    ensures Touched(t, upd) == HitTouched(t, sel)
  {
    forall a | a in t.assignments && a.node in t.nodes
      ensures SelectsId(t, upd, a.node) <==> Hit(t, sel, t.nodes[a.node])
    {
      RebuiltFindsHits(t, sel, upd, t.nodes[a.node]);
    }
  }

  /** After an add the update touches what it would have touched before, and
      perhaps the group of the added nodes. */
  lemma TouchedAfterAdd(t: Tables, added: seq<Node>, c: Config, g: Id, t': Tables, upd: Selector)
    requires WellFormed(t) && AddsTo(t, added, c, g, t')
    ensures Touched(t, upd) <= Touched(t', upd) <= Touched(t, upd) + {g}
  {
    forall a | a in t.assignments ensures a in t'.assignments && t'.nodes[a.node] == t.nodes[a.node] {}
    forall a | a in t'.assignments && a !in t.assignments ensures a.group == g {}
  }

  lemma StoredAfterAdd(t: Tables, added: seq<Node>, c: Config, g: Id, t': Tables, d: Config)
    requires WellFormed(t) && AddsTo(t, added, c, g, t')
    ensures Stored(t', d) <==> Stored(t, d) || d == c
  {
    AddedGroup(t, added, c, g, t');
    if Stored(t, d) {
      var h :| h in t.groups && t.groups[h].configId in t.configs && ConfigAt(t, h) == d;
      StoredIn(t, t', h);
    }
    if Stored(t', d) && d != c {
      var h :| h in t'.groups && t'.groups[h].configId in t'.configs && ConfigAt(t', h) == d;
      assert h in t.groups;
      StoredIn(t, t', h);
    }
  }

  lemma OverlayTwice(c: Config)
    ensures Overlay(c, c) == c
  {}

  lemma KeptConfig(t: Tables, added: seq<Node>, c: Config, g: Id, t': Tables, h: Id)
    requires WellFormed(t) && AddsTo(t, added, c, g, t') && h in t.groups
    ensures h in t'.groups && t'.groups[h].configId in t'.configs && ConfigAt(t', h) == ConfigAt(t, h)
  {
    AddedGroup(t, added, c, g, t');
    StoredIn(t, t', h);
  }

  lemma TouchedGroup(t: Tables, sel: Selector, g: Id)
    requires WellFormed(t) && g in Touched(t, sel)
    ensures g in t.groups
  {}

  /** The add inside Set adds only content that does not count as merged. */
  lemma MergesAfterAdd(t: Tables, added: seq<Node>, c: Config, g0: Id, t': Tables, upd: Selector)
    requires WellFormed(t) && AddsTo(t, added, c, g0, t') && WellFormed(t')
    ensures Merges(t', Touched(t', upd), c, {}) <==> Merges(t, Touched(t, upd), c, {c})
  {
    hide AddsTo, Stored, AssignmentsOk, KeyedById, Touched;
    TouchedAfterAdd(t, added, c, g0, t', upd);
    if Merges(t', Touched(t', upd), c, {}) {
      var g, h :| g in Touched(t', upd) && h in Touched(t', upd) && g != h && g in t'.groups && h in t'.groups
        && Overlay(ConfigAt(t', g), c) == Overlay(ConfigAt(t', h), c) && !Stored(t', Overlay(ConfigAt(t', g), c));
      MergedBefore(t, added, c, g0, t', upd, g, Overlay(ConfigAt(t', g), c));
      MergedBefore(t, added, c, g0, t', upd, h, Overlay(ConfigAt(t', h), c));
      StoredAfterAdd(t, added, c, g0, t', Overlay(ConfigAt(t, g), c));
    }
    if Merges(t, Touched(t, upd), c, {c}) {
      var g, h :| g in Touched(t, upd) && h in Touched(t, upd) && g != h && g in t.groups && h in t.groups
        && Overlay(ConfigAt(t, g), c) == Overlay(ConfigAt(t, h), c) && !Stored(t, Overlay(ConfigAt(t, g), c))
        && Overlay(ConfigAt(t, g), c) !in {c};
      KeptConfig(t, added, c, g0, t', g);
      KeptConfig(t, added, c, g0, t', h);
      StoredAfterAdd(t, added, c, g0, t', Overlay(ConfigAt(t, g), c));
    }
  }

  lemma MergedBefore(t: Tables, added: seq<Node>, c: Config, g0: Id, t': Tables, upd: Selector, g: Id, d: Config)
    requires WellFormed(t) && AddsTo(t, added, c, g0, t') && WellFormed(t')
    requires g in Touched(t', upd) && g in t'.groups && d == Overlay(ConfigAt(t', g), c) && !Stored(t', d)
    ensures g in Touched(t, upd) && g in t.groups && ConfigAt(t, g) == ConfigAt(t', g)
  {
    hide AddsTo;
    TouchedAfterAdd(t, added, c, g0, t', upd);
    AddedGroup(t, added, c, g0, t');
    OverlayTwice(c);
    StoredAfterAdd(t, added, c, g0, t', c);
    assert g != g0;
    TouchedGroup(t, upd, g);
    KeptConfig(t, added, c, g0, t', g);
  }

  lemma NothingHitTouched(t: Tables, sel: Selector)
    requires SelectedIds(t, sel) == {}
    ensures HitTouched(t, sel) == {}
  {
    forall id ensures !SelectsId(t, sel, id) { assert id !in SelectedIds(t, sel); }
  }

  lemma MidMergesIff(t: Tables, bp: BootParams, mid: Tables, upd: Selector)
    requires WellFormed(t) && MacsLower(t) && Rebuilt(t, bp.sel, upd) && SelectedIds(t, bp.sel) != {}
    requires !bp.config.Blank() && WellFormed(mid)
    requires if Missing(t, bp.sel).Everything() then mid == t
             else AddStep(t, BootParams(Missing(t, bp.sel), bp.config), mid, Done)
    ensures Collapses(mid, upd, bp.config) <==> SetCollapses(t, bp)
  {
    hide WellFormed, MacsLower, Rebuilt, SelectedIds, AddsTo, Collapses, Merges, Touched, HitTouched, Missing;
    TouchedIsHit(t, bp.sel, upd);
    CollapsesIsMerges(mid, upd, bp.config);
    if !Missing(t, bp.sel).Everything() {
      var added, g := WhatAdded(t, BootParams(Missing(t, bp.sel), bp.config), mid);
      MergesAfterAdd(t, added, bp.config, g, mid, upd);
    }
  }

  lemma MidDeduplicated(t: Tables, bp: BootParams, mid: Tables, oa: Outcome)
    requires WellFormed(t) && Deduplicated(t)
    requires if Missing(t, bp.sel).Everything() then oa == Done && mid == t
             else AddStep(t, BootParams(Missing(t, bp.sel), bp.config), mid, oa)
    ensures WellFormed(mid) && Deduplicated(mid)
  {
    if !Missing(t, bp.sel).Everything() { AddStepKeeps(t, BootParams(Missing(t, bp.sel), bp.config), mid, oa); }
  }

  lemma SetStepDeduplicatedIff(t: Tables, bp: BootParams, t': Tables, o: Outcome)
    requires WellFormed(t) && MacsLower(t) && Deduplicated(t) && SetStep(t, bp, t', o)
    ensures WellFormed(t') && (Deduplicated(t') <==> !SetCollapses(t, bp))
  {
    hide WellFormed, MacsLower, Rebuilt, AddStep, UpdateStep, Deduplicated, Collapses, Merges, Missing;
    if !bp.config.Blank() {
      var mid, upd, oa :| SetVia(t, bp, mid, upd, oa, t', o);
      MidDeduplicated(t, bp, mid, oa);
      var _ := SetMid(t, bp, mid, oa);
      if oa == Done && SelectedIds(t, bp.sel) != {} {
        MidMergesIff(t, bp, mid, upd);
        SetUpdateDeduplicatedIff(t, bp, mid, upd, t', o);
      } else {
        NoMergeWithoutHits(t, bp);
      }
    }
  }

  lemma NoMergeWithoutHits(t: Tables, bp: BootParams)
    requires WellFormed(t)
    ensures SelectedIds(t, bp.sel) == {} ==> !SetCollapses(t, bp)
  {
    if SelectedIds(t, bp.sel) == {} { NothingHitTouched(t, bp.sel); }
  }

  lemma SetUpdateDeduplicatedIff(t: Tables, bp: BootParams, mid: Tables, upd: Selector, t': Tables, o: Outcome)
    requires WellFormed(t) && MacsLower(t) && Rebuilt(t, bp.sel, upd) && SelectedIds(t, bp.sel) != {}
    requires !bp.config.Blank() && WellFormed(mid) && Deduplicated(mid)
    requires Submap(t.nodes, mid.nodes) && UpdateStep(mid, BootParams(upd, bp.config), t', o)
    ensures WellFormed(t') && (Deduplicated(t') <==> !Collapses(mid, upd, bp.config))
  {
    hide WellFormed, MacsLower, Rebuilt, UpdateStep, Deduplicated, Collapses, Missing;
    RebuiltNames(t, bp.sel, upd, mid);
    SomethingRebuilt(t, bp.sel, upd, mid);
    UpdateStepDeduplicatedIff(mid, BootParams(upd, bp.config), t', o);
  }

  // --------------------------------------------------------------------- runs

  ghost predicate StepCollapses(t: Tables, op: Op)
    requires WellFormed(t)
  {
    match op
    case UpdateOp(bp) => UpdateCollapses(t, bp)
    case SetOp(bp) => SetCollapses(t, bp)
    case _ => false
  }

  /** The step stores some content twice exactly when it is an update or a set
      that merges groups. */
  lemma StepDeduplicatedIff(t: Tables, op: Op, t': Tables)
    requires WellFormed(t) && MacsLower(t) && Deduplicated(t) && Step(t, op, t')
    ensures WellFormed(t') && MacsLower(t') && (Deduplicated(t') <==> !StepCollapses(t, op))
  {
    hide WellFormed, MacsLower, Deduplicated, UpdateCollapses, SetCollapses;
    StepKeepsWellFormed(t, op, t');
    var o :| Answers(t, op, t', o);
    match op
    case AddOp(bp) => AddStepKeeps(t, bp, t', o);
    case SetOp(bp) => SetStepDeduplicatedIff(t, bp, t', o);
    case UpdateOp(bp) => UpdateStepDeduplicatedIff(t, bp, t', o);
    case DeleteOp(bp) => DeleteStepKeeps(t, bp, t', o);
  }

  /** ts are the tables along a run of the requests. */
  ghost predicate Along(ops: seq<Op>, ts: seq<Tables>) {
    && |ts| == |ops| + 1 && ts[0] == EMPTY
    && forall i | 0 <= i < |ops| :: WellFormed(ts[i]) && Step(ts[i], ops[i], ts[i + 1])
  }

  lemma AlongNext(ops: seq<Op>, ts: seq<Tables>, op: Op, t: Tables)
    requires Along(ops, ts) && WellFormed(ts[|ops|]) && Step(ts[|ops|], op, t)
    ensures Along(ops + [op], ts + [t])
  {
    hide WellFormed, Step;
    forall i | 0 <= i <= |ops|
      ensures WellFormed((ts + [t])[i]) && Step((ts + [t])[i], (ops + [op])[i], (ts + [t])[i + 1])
    {
      if i < |ops| { assert WellFormed(ts[i]) && Step(ts[i], ops[i], ts[i + 1]); }
    }
  }

  /** Every table that is reached is reached along some such tables. */
  lemma {:induction false} ReachedAlong(ops: seq<Op>, t: Tables) returns (ts: seq<Tables>)
    requires Reaches(ops, t)
    ensures Along(ops, ts) && ts[|ops|] == t
    decreases |ops|
  {
    hide WellFormed, MacsLower, Step;
    if ops == [] {
      ts := [t];
    } else {
      var before, last := ops[..|ops| - 1], ops[|ops| - 1];
      var s :| Reaches(before, s) && (WellFormed(s) ==> Step(s, last, t));
      EveryRunIsWellFormed(before, s);
      var ss := ReachedAlong(before, s);
      ts := ss + [t];
      AlongNext(before, ss, last, t);
      assert ops == before + [last];
    }
  }

  ghost predicate DeduplicatedAll(ts: seq<Tables>) {
    forall t | t in ts :: WellFormed(t) && Deduplicated(t)
  }

  ghost predicate CollapsesNever(ops: seq<Op>, ts: seq<Tables>)
    requires Along(ops, ts)
  {
    forall i | 0 <= i < |ops| :: !StepCollapses(ts[i], ops[i])
  }

  lemma {:induction false} DeduplicatedUpTo(ops: seq<Op>, ts: seq<Tables>, n: nat)
    requires Along(ops, ts) && n <= |ops| && forall i | 0 <= i < n :: !StepCollapses(ts[i], ops[i])
    ensures WellFormed(ts[n]) && MacsLower(ts[n]) && Deduplicated(ts[n])
  {
    hide WellFormed, MacsLower, Deduplicated, Step, StepCollapses;
    EmptyOk();
    if n > 0 {
      DeduplicatedUpTo(ops, ts, n - 1);
      StepDeduplicatedIff(ts[n - 1], ops[n - 1], ts[n]);
    }
  }

  /** All along a run of the four operations no content is stored twice, if and
      only if no update or set in it merges groups. */
  lemma DeduplicatedRunIff(ops: seq<Op>, ts: seq<Tables>)
    requires Along(ops, ts)
    ensures DeduplicatedAll(ts) <==> CollapsesNever(ops, ts)
  {
    hide MacsLower, Deduplicated, Step, StepCollapses;
    if CollapsesNever(ops, ts) {
      forall t | t in ts ensures WellFormed(t) && Deduplicated(t) {
        var n :| 0 <= n < |ts| && ts[n] == t;
        DeduplicatedUpTo(ops, ts, n);
      }
    } else {
      var n :| 0 <= n < |ops| && StepCollapses(ts[n], ops[n]);
      FirstCollapse(ops, ts, n);
    }
  }

  lemma {:induction false} FirstCollapse(ops: seq<Op>, ts: seq<Tables>, n: nat)
    requires Along(ops, ts) && n < |ops| && StepCollapses(ts[n], ops[n])
    ensures !DeduplicatedAll(ts)
  {
    hide WellFormed, MacsLower, Deduplicated, Step, StepCollapses;
    if m: nat :| m < n && StepCollapses(ts[m], ops[m]) {
      FirstCollapse(ops, ts, m);
    } else {
      DeduplicatedUpTo(ops, ts, n);
      StepDeduplicatedIff(ts[n], ops[n], ts[n + 1]);
      assert ts[n + 1] in ts;
    }
  }
}
