/** What a Set leaves for a second one with the same request to do. */
module SetTwice {
  import opened Common
  import opened Identities
  import opened Requests
  import opened SetHits
  import opened SetLaws
  import opened StoreLaws
  import opened StoreSpec
  import opened Tables

  /** Of several kinds only the first is added; the other kinds must not name
      anything but what the added rows have there, which is blank. */
  predicate OthersBlank(m: Selector) {
    if m.xnames != [] then (forall x | x in m.macs :: x == "") && (forall k | k in m.nids :: k == 0)
    else m.macs != [] ==> forall k | k in m.nids :: k == 0
  }

  lemma KnownAfter(t: Tables, added: seq<Node>, t': Tables)
    requires DistinctIds(added) && t'.nodes == t.nodes + ById(added)
    requires forall n | n in added :: n.id !in t.nodes
    ensures forall m :: KnownMac(t', m) <==> KnownMac(t, m) || exists i :: 0 <= i < |added| && added[i].mac == Lower(m)
    ensures forall x :: KnownXname(t', x) <==> KnownXname(t, x) || exists i :: 0 <= i < |added| && added[i].xname == x
    ensures forall n :: KnownNid(t', n) <==> KnownNid(t, n) || exists i :: 0 <= i < |added| && added[i].nid == n
  {}

  /** After Set every selector of the request has a node exactly when the kinds
      that it does not add name nothing, or blanks, that had none. */
  lemma SetCoversAllIff(t: Tables, sel: Selector, added: seq<Node>, t': Tables)
    requires Grew(t, sel, added, t')
    ensures Missing(t', sel).Everything() <==> OthersBlank(Missing(t, sel))
  {
    hide KnownMac, KnownXname, KnownNid;
    var m := Missing(t, sel);
    KnownAfter(t, added, t');
    if !m.Everything() { FirstKindKnown(t, m, added, t'); }
  }

  lemma LowerBlank(s: string)
    ensures Lower(s) == "" <==> s == ""
  {}

  /** Which of the missing selectors are known once Set has added its rows. */
  lemma FirstKindKnown(t: Tables, m: Selector, added: seq<Node>, t': Tables)
    requires !m.Everything()
    requires (forall x | x in m.macs :: !KnownMac(t, x)) && (forall x | x in m.xnames :: !KnownXname(t, x))
    requires forall x | x in m.nids :: !KnownNid(t, x)
    requires Numbered(Wanted(t, m), added) && DistinctIds(added) && t'.nodes == t.nodes + ById(added)
    requires forall n | n in added :: n.id !in t.nodes
    ensures forall x | x in m.xnames :: KnownXname(t', x)
    ensures forall x | x in m.macs :: KnownMac(t', x) <==> m.xnames == [] || x == ""
    ensures forall x | x in m.nids :: KnownNid(t', x) <==> (m.xnames == [] && m.macs == []) || x == 0
  {
    KnownAfter(t, added, t');
    forall x ensures Lower(x) == "" <==> x == "" { LowerBlank(x); }
    if m.xnames != [] {
      XnamesKnown(t, m, added);
    } else if m.macs != [] {
      MacsKnown(t, m, added);
    } else {
      NidsKnown(t, m, added);
    }
  }

  lemma XnamesKnown(t: Tables, m: Selector, added: seq<Node>)
    requires m.xnames != [] && (forall x | x in m.xnames :: !KnownXname(t, x)) && Numbered(Wanted(t, m), added)
    ensures |added| > 0 && forall i | 0 <= i < |added| :: added[i].mac == "" && added[i].nid == 0
    ensures forall x | x in m.xnames :: exists i :: 0 <= i < |added| && added[i].xname == x
  {
    var w := Wanted(t, m);
    forall i | 0 <= i < |added| ensures added[i].mac == "" && added[i].nid == 0 {
      assert added[i].(id := BLANK_ID) == w[i];
    }
    assert m.xnames[0] in m.xnames;
    forall x | x in m.xnames ensures exists i :: 0 <= i < |added| && added[i].xname == x {
      var i :| 0 <= i < |MissingXnames(t, m.xnames)| && MissingXnames(t, m.xnames)[i] == x;
      assert added[i].(id := BLANK_ID) == w[i];
    }
  }

  lemma MacsKnown(t: Tables, m: Selector, added: seq<Node>)
    requires m.xnames == [] && m.macs != [] && (forall x | x in m.macs :: !KnownMac(t, x))
    requires Numbered(Wanted(t, m), added)
    ensures |added| > 0 && forall i | 0 <= i < |added| :: added[i].xname == "" && added[i].nid == 0
    ensures forall x | x in m.macs :: exists i :: 0 <= i < |added| && added[i].mac == Lower(x)
  {
    var w := Wanted(t, m);
    forall i | 0 <= i < |added| ensures added[i].xname == "" && added[i].nid == 0 {
      assert added[i].(id := BLANK_ID) == w[i];
    }
    assert m.macs[0] in m.macs;
    forall x | x in m.macs ensures exists i :: 0 <= i < |added| && added[i].mac == Lower(x) {
      var i :| 0 <= i < |MissingMacs(t, m.macs)| && MissingMacs(t, m.macs)[i] == x;
      assert added[i].(id := BLANK_ID) == w[i];
    }
  }

  lemma NidsKnown(t: Tables, m: Selector, added: seq<Node>)
    requires m.xnames == [] && m.macs == [] && (forall x | x in m.nids :: !KnownNid(t, x))
    requires Numbered(Wanted(t, m), added)
    ensures forall x | x in m.nids :: exists i :: 0 <= i < |added| && added[i].nid == x
  {
    var w := Wanted(t, m);
    forall x | x in m.nids ensures exists i :: 0 <= i < |added| && added[i].nid == x {
      var i :| 0 <= i < |MissingNids(t, m.nids)| && MissingNids(t, m.nids)[i] == x;
      assert added[i].(id := BLANK_ID) == w[i];
    }
  }

  /** Nothing was selected, and all that Set adds has no identity. */
  predicate BlankAdd(t: Tables, sel: Selector) {
    && SelectedIds(t, sel) == {} && !Missing(t, sel).Everything()
    && var w := Wanted(t, Missing(t, sel));
       forall i | 0 <= i < |w| :: !HasIdentity(w[i])
  }

  /** Every row that Set adds is selected by its request from then on. */
  lemma AddedSelected(t: Tables, sel: Selector, added: seq<Node>, n: Node)
    requires SetAdds(t, sel, added) && n in added
    ensures Selects(sel, n)
  {
    var m := Missing(t, sel);
    var i :| 0 <= i < |added| && added[i] == n;
    WantedSelected(t, m, i, n);
  }

  /** No old node shares an identity with a row that Set adds. */
  lemma AddedShareNothing(t: Tables, sel: Selector, added: seq<Node>, e: Node, id: Id)
    requires SetAdds(t, sel, added) && e in added && id in t.nodes
    ensures Apart(e, t.nodes[id]) && (HasIdentity(e) <==> HasIdentity(e.(id := BLANK_ID)))
    ensures Lower(e.mac) == e.mac
  {
    var i :| 0 <= i < |added| && added[i] == e;
    WantedShape(t, Missing(t, sel), i);
  }

  /** A node that a second Set would hit and the first did not. */
  lemma NewlyHitIff(t: Tables, sel: Selector, added: seq<Node>, t': Tables, id: Id)
    requires Grew(t, sel, added, t') && id in t.nodes && !Hit(t, sel, t.nodes[id])
    ensures Hit(t', sel, t.nodes[id]) <==> BlankAdd(t, sel)
  {
    var n := t.nodes[id];
    forall e | SelectsId(t', sel, e) ensures Apart(t'.nodes[e], n) {
      if e in t.nodes {
        assert SelectsId(t, sel, e);
      } else {
        AddedShareNothing(t, sel, added, t'.nodes[e], id);
      }
    }
    if BlankAdd(t, sel) { BlankAddHits(t, sel, added, t'); }
    if Hit(t', sel, n) { HitsByBlankAdd(t, sel, added, t', id); }
  }

  lemma OldOrAdded(t: Tables, sel: Selector, added: seq<Node>, t': Tables, e: Id)
    requires Grew(t, sel, added, t') && SelectsId(t', sel, e)
    ensures e in SelectedIds(t, sel) || t'.nodes[e] in added
  {}

  lemma BlankAddHits(t: Tables, sel: Selector, added: seq<Node>, t': Tables)
    requires Grew(t, sel, added, t') && BlankAdd(t, sel)
    ensures SelectedIds(t', sel) != {} && NoneNamed(t', sel)
  {
    hide MissingMacs, MissingXnames, MissingNids;
    MissingTwice(t, sel);
    assert added[0] in added;
    AddedSelected(t, sel, added, added[0]);
    assert added[0].id in SelectedIds(t', sel);
    forall e | SelectsId(t', sel, e) ensures !HasIdentity(t'.nodes[e]) {
      OldOrAdded(t, sel, added, t', e);
      var i :| 0 <= i < |added| && added[i] == t'.nodes[e];
      assert added[i].(id := BLANK_ID) == Wanted(t, Missing(t, sel))[i];
    }
  }

  lemma HitsByBlankAdd(t: Tables, sel: Selector, added: seq<Node>, t': Tables, id: Id)
    requires Grew(t, sel, added, t') && id in t.nodes && !Hit(t, sel, t.nodes[id])
    requires SelectedIds(t', sel) != {} && NoneNamed(t', sel)
    ensures BlankAdd(t, sel)
  {
    NothingSelected(t, sel, t', id);
    var e :| e in SelectedIds(t', sel);
    OldOrAdded(t, sel, added, t', e);
    RowsBlank(t, sel, added, t');
  }

  lemma RowsBlank(t: Tables, sel: Selector, added: seq<Node>, t': Tables)
    requires Grew(t, sel, added, t') && !Missing(t, sel).Everything() && NoneNamed(t', sel)
    ensures forall i | 0 <= i < |added| :: !HasIdentity(Wanted(t, Missing(t, sel))[i])
  {
    forall i | 0 <= i < |added| ensures !HasIdentity(Wanted(t, Missing(t, sel))[i]) {
      assert added[i] in added && added[i].(id := BLANK_ID) == Wanted(t, Missing(t, sel))[i];
      AddedSelected(t, sel, added, added[i]);
      assert SelectsId(t', sel, added[i].id);
    }
  }

  lemma NothingSelected(t: Tables, sel: Selector, t': Tables, id: Id)
    requires NoneNamed(t', sel) && Submap(t.nodes, t'.nodes) && id in t.nodes && !Hit(t, sel, t.nodes[id])
    ensures SelectedIds(t, sel) == {}
  {
    forall e | e in t.nodes && SelectsId(t, sel, e) ensures !HasIdentity(t.nodes[e]) { assert SelectsId(t', sel, e); }
  }

  lemma GrownMacsLower(t: Tables, sel: Selector, added: seq<Node>, t': Tables)
    requires MacsLower(t) && Grew(t, sel, added, t')
    ensures MacsLower(t')
  {
    if added == [] {
      assert t'.nodes == t.nodes;
    } else {
      AddKeepsMacsLower(t, Missing(t, sel), added, t');
    }
  }

  predicate RowsOf(v: map<Node, Config>, t: Tables) {
    && (forall n | n in v :: n.id in t.nodes && t.nodes[n.id] == n)
    && (forall id | id in t.nodes :: t.nodes[id] in v)
  }

  /** What a second Set with the same request changes on the map: nothing that
      the first one hit or added. */
  lemma HitAgainIff(t: Tables, v: map<Node, Config>, sel: Selector, c: Config, added: seq<Node>, t1: Tables, n: Node)
    requires RowsOf(v, t) && Grew(t, sel, added, t1)
    requires n in ExtendedView(HitView(t, v, sel, c), added, c)
    ensures var v1 := ExtendedView(HitView(t, v, sel, c), added, c);
      (Hit(t1, sel, n) ==> Overlay(v1[n], c) == v1[n]) <==>
      n !in v || !BlankAdd(t, sel) || Hit(t, sel, n) || Overlay(v[n], c) == v[n]
  {
    if n in v && !Hit(t, sel, n) { NewlyHitIff(t, sel, added, t1, n.id); }
  }

  lemma NothingHit(t: Tables, sel: Selector)
    requires SelectedIds(t, sel) == {}
    ensures forall n :: !Hit(t, sel, n)
  {
    forall id ensures !SelectsId(t, sel, id) { assert id !in SelectedIds(t, sel); }
  }

  ghost predicate HitsNothingNew(t: Tables, v: map<Node, Config>, sel: Selector, c: Config) {
    forall n | n in v :: Hit(t, sel, n) ==> Overlay(v[n], c) == v[n]
  }

  predicate HasFields(v: map<Node, Config>, c: Config) {
    forall n | n in v :: Overlay(v[n], c) == v[n]
  }

  lemma SecondHitsIff(t: Tables, v: map<Node, Config>, sel: Selector, c: Config, added: seq<Node>, t1: Tables)
    requires RowsOf(v, t) && Grew(t, sel, added, t1)
    ensures HitsNothingNew(t1, ExtendedView(HitView(t, v, sel, c), added, c), sel, c)
            <==> BlankAdd(t, sel) ==> HasFields(v, c)
  {
    var v1 := ExtendedView(HitView(t, v, sel, c), added, c);
    if BlankAdd(t, sel) && !HasFields(v, c) {
      NothingHit(t, sel);
      var n :| n in v && Overlay(v[n], c) != v[n];
      assert n in v1;
      HitAgainIff(t, v, sel, c, added, t1, n);
    } else {
      forall n | n in v1 ensures Hit(t1, sel, n) ==> Overlay(v1[n], c) == v1[n] {
        HitAgainIff(t, v, sel, c, added, t1, n);
      }
    }
  }

  /** A Set leaves a map alone exactly when it adds nothing and what it hits has
      the requested fields already. */
  lemma EffectIsNothingIff(t: Tables, v: map<Node, Config>, sel: Selector, c: Config, added: seq<Node>)
    requires SetAdds(t, sel, added) && forall n | n in added :: n !in v
    ensures ExtendedView(HitView(t, v, sel, c), added, c) == v <==>
            Missing(t, sel).Everything() && HitsNothingNew(t, v, sel, c)
  {
    var w := ExtendedView(HitView(t, v, sel, c), added, c);
    if Missing(t, sel).Everything() {
      if HitsNothingNew(t, v, sel, c) { SameMap(w, v); }
    } else {
      MissingTwice(t, sel);
      assert added[0] in added && added[0] in w;
    }
  }

  lemma AddedNotInView(t: Tables, added: seq<Node>)
    requires WellFormed(t) && forall n | n in added :: n.id !in t.nodes
    ensures RowsOf(View(t), t) && forall n | n in added :: n !in View(t)
  {}

  /** A second Set with the same request is accepted, and leaves the map alone
      exactly when no selector is without a node by then, and the first did not
      add the blank nodes by which the second hits all the others. */
  lemma SetIdempotentIff(t: Tables, bp: BootParams, t1: Tables, t2: Tables, o2: Outcome)
    requires WellFormed(t) && MacsLower(t) && SetStep(t, bp, t1, Done)
    requires WellFormed(t1) && SetStep(t1, bp, t2, o2)
    ensures o2 == Done && WellFormed(t2)
    ensures View(t2) == View(t1) <==>
            OthersBlank(Missing(t, bp.sel)) && (BlankAdd(t, bp.sel) ==> HasFields(View(t), bp.config))
  {
    var added := SetRefines(t, bp, t1, Done);
    AddedNotInView(t, added);
    GrownMacsLower(t, bp.sel, added, t1);
    SetCoversAllIff(t, bp.sel, added, t1);
    SecondHitsIff(t, View(t), bp.sel, bp.config, added, t1);
    var again := SetRefines(t1, bp, t2, o2);
    AddedNotInView(t1, again);
    EffectIsNothingIff(t1, View(t1), bp.sel, bp.config, again);
  }
}
