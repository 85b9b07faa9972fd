/** Set as one operation on the map. */
module SetLaws {
  import opened Common
  import opened Identities
  import opened Requests
  import opened SetHits
  import opened StoreLaws
  import opened StoreSpec
  import opened Tables

  /** Missing selectors are still missing when the add looks again, so the add
      inside Set always has a node to insert. */
  lemma MissingTwice(t: Tables, sel: Selector)
    requires !Missing(t, sel).Everything()
    ensures Wanted(t, Missing(t, sel)) != []
  {}

  /** What Set inserts: the missing selectors of the first kind that has any. */
  predicate SetAdds(t: Tables, sel: Selector, added: seq<Node>) {
    if Missing(t, sel).Everything() then added == []
    else Numbered(Wanted(t, Missing(t, sel)), added)
  }

  /** t' has the added rows more than t. */
  ghost predicate Grew(t: Tables, sel: Selector, added: seq<Node>, t': Tables) {
    && SetAdds(t, sel, added) && DistinctIds(added) && (forall n | n in added :: n.id !in t.nodes)
    && t'.nodes == t.nodes + ById(added)
  }

  ghost function HitView(t: Tables, v: map<Node, Config>, sel: Selector, c: Config): map<Node, Config> {
    map n | n in v :: if Hit(t, sel, n) then Overlay(v[n], c) else v[n]
  }

  /** What Set does: the nodes it hits get the overlay, each added one exactly
      the request, and nothing else changes. */
  ghost predicate SetEffect(t: Tables, bp: BootParams, added: seq<Node>, t': Tables)
    requires WellFormed(t)
  {
    && Grew(t, bp.sel, added, t') && WellFormed(t')
    && View(t') == ExtendedView(HitView(t, View(t), bp.sel, bp.config), added, bp.config)
  }

  /** The update inside Set overlays exactly the nodes that are hit; on added
      nodes the overlay shows nothing, since they have the request already. */
  lemma SetOverlays(t: Tables, bp: BootParams, added: seq<Node>, mid: Tables, upd: Selector)
    requires WellFormed(t) && WellFormed(mid) && MacsLower(t)
    requires Rebuilt(t, bp.sel, upd) && SelectedIds(t, bp.sel) != {}
    requires forall n | n in added :: n.id !in t.nodes
    requires View(mid) == ExtendedView(View(t), added, bp.config)
    ensures OverlaidView(View(mid), upd, bp.config)
            == ExtendedView(HitView(t, View(t), bp.sel, bp.config), added, bp.config)
  {
    var v := OverlaidView(View(mid), upd, bp.config);
    var w := ExtendedView(HitView(t, View(t), bp.sel, bp.config), added, bp.config);
    forall n | n in w ensures n in v && v[n] == w[n] {
      if n !in added { RebuiltFindsHits(t, bp.sel, upd, n); }
    }
    SameMap(v, w);
  }

  lemma SetDone(t: Tables, bp: BootParams, added: seq<Node>, mid: Tables, upd: Selector, t': Tables, o: Outcome)
    requires WellFormed(t) && MacsLower(t) && !bp.config.Blank()
    requires Rebuilt(t, bp.sel, upd) && SelectedIds(t, bp.sel) != {}
    requires SetAdds(t, bp.sel, added) && DistinctIds(added) && (forall n | n in added :: n.id !in t.nodes)
    requires WellFormed(mid) && mid.nodes == t.nodes + ById(added)
    requires View(mid) == ExtendedView(View(t), added, bp.config)
    requires UpdateStep(mid, BootParams(upd, bp.config), t', o)
    ensures o == Done && SetEffect(t, bp, added, t')
  {
    RebuiltNames(t, bp.sel, upd, mid);
    SomethingRebuilt(t, bp.sel, upd, mid);
    UpdateRefinesOverlay(mid, upd, bp.config, t');
    SetOverlays(t, bp, added, mid, upd);
    var plan :| UpdatesBy(mid, upd, bp.config, plan, t');
  }

  lemma SetUntouched(t: Tables, bp: BootParams, added: seq<Node>, mid: Tables)
    requires WellFormed(t) && WellFormed(mid) && SelectedIds(t, bp.sel) == {}
    requires View(mid) == ExtendedView(View(t), added, bp.config)
    ensures View(mid) == ExtendedView(HitView(t, View(t), bp.sel, bp.config), added, bp.config)
  {
    hide WellFormed;
    forall id ensures !SelectsId(t, bp.sel, id) { assert id !in SelectedIds(t, bp.sel); }
    SameMap(HitView(t, View(t), bp.sel, bp.config), View(t));
  }

  /** The add inside Set: refused with the tables untouched, or a row for each
      missing selector of the first kind. */
  lemma SetAddStep(t: Tables, bp: BootParams, mid: Tables, o: Outcome) returns (added: seq<Node>)
    requires WellFormed(t) && !Missing(t, bp.sel).Everything()
    requires AddStep(t, BootParams(Missing(t, bp.sel), bp.config), mid, o)
    ensures if bp.config.kernel == "" then o == Refused(BlankKernel) && mid == t
            else o == Done && SetAdds(t, bp.sel, added) && DistinctIds(added)
                 && (forall n | n in added :: n.id !in t.nodes)
                 && WellFormed(mid) && mid.nodes == t.nodes + ById(added)
                 && View(mid) == ExtendedView(View(t), added, bp.config)
  {
    added := [];
    MissingTwice(t, bp.sel);
    if bp.config.kernel != "" {
      added :| Numbered(Wanted(t, Missing(t, bp.sel)), added) && Adds(t, added, bp.config, mid);
      AddRefinesExtension(t, added, bp.config, mid);
    }
  }

  /** The tables after the first half of Set. */
  lemma SetMid(t: Tables, bp: BootParams, mid: Tables, oa: Outcome) returns (added: seq<Node>)
    requires WellFormed(t)
    requires if Missing(t, bp.sel).Everything() then oa == Done && mid == t
             else AddStep(t, BootParams(Missing(t, bp.sel), bp.config), mid, oa)
    ensures if !Missing(t, bp.sel).Everything() && bp.config.kernel == ""
            then oa == Refused(BlankKernel) && mid == t
            else oa == Done && SetAdds(t, bp.sel, added) && DistinctIds(added)
                 && (forall n | n in added :: n.id !in t.nodes)
                 && WellFormed(mid) && mid.nodes == t.nodes + ById(added)
                 && View(mid) == ExtendedView(View(t), added, bp.config)
  {
    if Missing(t, bp.sel).Everything() {
      added := [];
      SameMap(View(mid), ExtendedView(View(t), added, bp.config));
      assert mid.nodes == t.nodes + ById(added);
    } else {
      added := SetAddStep(t, bp, mid, oa);
    }
  }

  /** Set is refused only for a blank request or when it would have to add a
      node without a kernel, and then changes no table; else it has its effect. */
  lemma SetRefines(t: Tables, bp: BootParams, t': Tables, o: Outcome) returns (added: seq<Node>)
    requires WellFormed(t) && MacsLower(t) && SetStep(t, bp, t', o)
    ensures o == Done <==> !bp.config.Blank() && (Missing(t, bp.sel).Everything() || bp.config.kernel != "")
    ensures o != Done ==> t' == t && o == Refused(if bp.config.Blank() then BlankPatch else BlankKernel)
    ensures o == Done ==> SetEffect(t, bp, added, t')
  {
    hide WellFormed;
    added := [];
    if !bp.config.Blank() {
      var mid, upd, oa :| SetVia(t, bp, mid, upd, oa, t', o);
      added := SetMid(t, bp, mid, oa);
      if oa == Done {
        if SelectedIds(t, bp.sel) == {} {
          SetUntouched(t, bp, added, mid);
        } else {
          SetDone(t, bp, added, mid, upd, t', o);
        }
      }
    }
  }

  /** Nodes that are hit but not selected, or selected but not hit, have the
      requested fields already. */
  ghost predicate MishapsHidden(t: Tables, v: map<Node, Config>, sel: Selector, c: Config) {
    forall n | n in v :: (Hit(t, sel, n) <==> Selects(sel, n)) || Overlay(v[n], c) == v[n]
  }

  lemma SameExtensionIff(v: map<Node, Config>, w: map<Node, Config>, added: seq<Node>, c: Config)
    requires v.Keys == w.Keys && forall n | n in v :: n !in added
    ensures ExtendedView(v, added, c) == ExtendedView(w, added, c) <==> v == w
  {
    if ExtendedView(v, added, c) == ExtendedView(w, added, c) {
      forall n | n in v ensures v[n] == w[n] { assert ExtendedView(v, added, c)[n] == v[n]; }
      SameMap(v, w);
    }
  }

  lemma HitIsOverlayIff(t: Tables, v: map<Node, Config>, sel: Selector, c: Config)
    ensures HitView(t, v, sel, c) == OverlaidView(v, sel, c) <==> MishapsHidden(t, v, sel, c)
  {
    var h, w := HitView(t, v, sel, c), OverlaidView(v, sel, c);
    forall n | n in v
      ensures h[n] == w[n] <==> (Hit(t, sel, n) <==> Selects(sel, n)) || Overlay(v[n], c) == v[n]
    {}
    if MishapsHidden(t, v, sel, c) { SameMap(h, w); }
  }

  /** Set gives every selected node the overlay and leaves the others alone
      exactly when each node that it wrongly hits or misses has the requested
      fields already. */
  lemma SetIsOverlayIff(t: Tables, bp: BootParams, added: seq<Node>, t': Tables)
    requires WellFormed(t) && SetEffect(t, bp, added, t')
    ensures View(t') == ExtendedView(OverlaidView(View(t), bp.sel, bp.config), added, bp.config)
            <==> MishapsHidden(t, View(t), bp.sel, bp.config)
  {
    var v := View(t);
    assert forall n | n in v :: n !in added;
    HitIsOverlayIff(t, v, bp.sel, bp.config);
    SameExtensionIff(HitView(t, v, bp.sel, bp.config), OverlaidView(v, bp.sel, bp.config), added, bp.config);
  }

  /** In particular whenever the request separates its nodes from the others. */
  lemma SeparatedSetIsOverlay(t: Tables, bp: BootParams, added: seq<Node>, t': Tables)
    requires WellFormed(t) && SetEffect(t, bp, added, t') && Separates(t, bp.sel)
    ensures View(t') == ExtendedView(OverlaidView(View(t), bp.sel, bp.config), added, bp.config)
  {
    hide WellFormed, SetEffect, Separates, Hit;
    HitsSelectedIff(t, bp.sel);
    forall n | n in View(t) ensures Hit(t, bp.sel, n) <==> Selects(bp.sel, n) {
      assert t.nodes[n.id] == n;
    }
    SetIsOverlayIff(t, bp, added, t');
  }
}
