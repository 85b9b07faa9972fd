/** Which nodes Set updates: it names them by the identities of the nodes that
    its request selects, which need not come to the same nodes. */
module SetHits {
  import opened Identities
  import opened Requests
  import opened StoreSpec
  import opened Tables

  /** No selected node has an identity, so the rebuilt selector is empty. */
  predicate NoneNamed(t: Tables, sel: Selector) {
    forall id | id in t.nodes && SelectsId(t, sel, id) :: !HasIdentity(t.nodes[id])
  }

  ghost predicate SharesWithSelected(t: Tables, sel: Selector, n: Node) {
    exists id :: SelectsId(t, sel, id) && !Apart(t.nodes[id], n)
  }

  /** The nodes whose configuration Set overlays: those that share an identity
      with a selected node; all of them when the selected ones have none. */
  ghost predicate Hit(t: Tables, sel: Selector, n: Node) {
    (SelectedIds(t, sel) != {} && NoneNamed(t, sel)) || SharesWithSelected(t, sel, n)
  }

  lemma RebuiltEmptyIff(t: Tables, sel: Selector, upd: Selector)
    requires Rebuilt(t, sel, upd)
    ensures upd.Everything() <==> NoneNamed(t, sel)
  {
    if upd.Everything() {
      forall id | SelectsId(t, sel, id) ensures !HasIdentity(t.nodes[id]) {
        var n := t.nodes[id];
        assert n.mac !in upd.macs && n.xname !in upd.xnames && n.nid !in upd.nids;
      }
    } else if upd.macs != [] {
      assert upd.macs[0] in upd.macs;
    } else if upd.xnames != [] {
      assert upd.xnames[0] in upd.xnames;
    } else {
      var k := upd.nids[0];
      assert k in upd.nids;
    }
  }

  lemma SharedIsRebuilt(t: Tables, sel: Selector, upd: Selector, e: Id, n: Node)
    requires MacsLower(t) && Rebuilt(t, sel, upd) && SelectsId(t, sel, e) && !Apart(t.nodes[e], n)
    ensures Selects(upd, n)
  {
    var m := t.nodes[e];
    if m.mac != "" && m.mac == n.mac {
      assert m.mac in upd.macs && Lower(m.mac) == n.mac;
    }
  }

  lemma RebuiltIsShared(t: Tables, sel: Selector, upd: Selector, n: Node) returns (e: Id)
    requires MacsLower(t) && Rebuilt(t, sel, upd) && !upd.Everything() && Selects(upd, n)
    ensures SelectsId(t, sel, e) && !Apart(t.nodes[e], n)
  {
    if NamesMac(upd.macs, n.mac) {
      var m :| m in upd.macs && Lower(m) == n.mac;
      e :| SelectsId(t, sel, e) && t.nodes[e].mac == m;
    } else if n.xname in upd.xnames {
      e :| SelectsId(t, sel, e) && t.nodes[e].xname == n.xname;
    } else {
      e :| SelectsId(t, sel, e) && t.nodes[e].nid == n.nid;
    }
  }

  /** The selector that Set rebuilds finds exactly the nodes it hits. */
  lemma RebuiltFindsHits(t: Tables, sel: Selector, upd: Selector, n: Node)
    requires MacsLower(t) && Rebuilt(t, sel, upd) && SelectedIds(t, sel) != {}
    ensures Selects(upd, n) <==> Hit(t, sel, n)
  {
    RebuiltEmptyIff(t, sel, upd);
    if SharesWithSelected(t, sel, n) {
      var e :| SelectsId(t, sel, e) && !Apart(t.nodes[e], n);
      SharedIsRebuilt(t, sel, upd, e, n);
    }
    if Selects(upd, n) && !upd.Everything() {
      var e := RebuiltIsShared(t, sel, upd, n);
    }
  }

  /** Every selected node has an identity, and shares none with the others. */
  predicate Separates(t: Tables, sel: Selector) {
    && (forall i | i in t.nodes && SelectsId(t, sel, i) :: HasIdentity(t.nodes[i]))
    && (forall i, j | i in t.nodes && j in t.nodes && SelectsId(t, sel, i) && !SelectsId(t, sel, j) ::
          Apart(t.nodes[i], t.nodes[j]))
  }

  ghost predicate HitsSelected(t: Tables, sel: Selector) {
    forall id | id in t.nodes :: Hit(t, sel, t.nodes[id]) <==> SelectsId(t, sel, id)
  }

  /** Set updates exactly the nodes that its request selects if and only if
      these have identities that no other node has, or have none and are all
      the nodes there are. */
  lemma HitsSelectedIff(t: Tables, sel: Selector)
    ensures HitsSelected(t, sel) <==>
            Separates(t, sel) || (NoneNamed(t, sel) && SelectedIds(t, sel) == t.nodes.Keys)
  {
    if Separates(t, sel) {
      forall id | id in t.nodes ensures Hit(t, sel, t.nodes[id]) <==> SelectsId(t, sel, id) {
        if SelectsId(t, sel, id) { assert !Apart(t.nodes[id], t.nodes[id]); }
        if SelectedIds(t, sel) != {} { var i :| i in SelectedIds(t, sel); assert SelectsId(t, sel, i); }
      }
    } else if NoneNamed(t, sel) && SelectedIds(t, sel) == t.nodes.Keys {
      forall id | id in t.nodes ensures Hit(t, sel, t.nodes[id]) && SelectsId(t, sel, id) {
        assert id in SelectedIds(t, sel);
      }
    } else if HitsSelected(t, sel) {
      NotSeparated(t, sel);
    }
  }

  lemma AllOrNamed(t: Tables, sel: Selector)
    requires HitsSelected(t, sel)
    ensures SelectedIds(t, sel) == {} || !NoneNamed(t, sel) || SelectedIds(t, sel) == t.nodes.Keys
  {
    if SelectedIds(t, sel) != {} && NoneNamed(t, sel) {
      forall id | id in t.nodes ensures id in SelectedIds(t, sel) { assert Hit(t, sel, t.nodes[id]); }
    }
  }

  lemma NotSeparated(t: Tables, sel: Selector)
    requires HitsSelected(t, sel) && !(NoneNamed(t, sel) && SelectedIds(t, sel) == t.nodes.Keys)
    ensures Separates(t, sel)
  {
    AllOrNamed(t, sel);
    forall i | SelectsId(t, sel, i) ensures HasIdentity(t.nodes[i]) {
      assert i in SelectedIds(t, sel) && Hit(t, sel, t.nodes[i]);
      assert SharesWithSelected(t, sel, t.nodes[i]);
    }
    forall i, j | SelectsId(t, sel, i) && j in t.nodes && !SelectsId(t, sel, j)
      ensures Apart(t.nodes[i], t.nodes[j])
    {
      assert !Hit(t, sel, t.nodes[j]);
    }
  }

  /** Unique non-blank identities separate whatever is selected. */
  lemma IdentitiesSeparate(t: Tables, sel: Selector)
    requires IdentitiesOk(t)
    ensures Separates(t, sel)
  {}

  lemma RebuiltNames(t: Tables, sel: Selector, upd: Selector, mid: Tables)
    requires MacsLower(t) && Rebuilt(t, sel, upd) && Submap(t.nodes, mid.nodes)
    ensures Missing(mid, upd).Everything()
  {
    forall m | m in upd.macs ensures KnownMac(mid, m) {
      var e :| SelectsId(t, sel, e) && t.nodes[e].mac == m;
      assert mid.nodes[e].mac == Lower(m);
    }
    forall x | x in upd.xnames ensures KnownXname(mid, x) {
      var e :| SelectsId(t, sel, e) && t.nodes[e].xname == x;
      assert mid.nodes[e].xname == x;
    }
    forall n | n in upd.nids ensures KnownNid(mid, n) {
      var e :| SelectsId(t, sel, e) && t.nodes[e].nid == n;
      assert mid.nodes[e].nid == n;
    }
  }

  lemma SomethingRebuilt(t: Tables, sel: Selector, upd: Selector, mid: Tables)
    requires MacsLower(t) && Rebuilt(t, sel, upd) && Submap(t.nodes, mid.nodes) && SelectedIds(t, sel) != {}
    ensures SelectedIds(mid, upd) != {}
  {
    RebuiltEmptyIff(t, sel, upd);
    var id :| id in SelectedIds(t, sel);
    if !NoneNamed(t, sel) {
      id :| id in t.nodes && SelectsId(t, sel, id) && HasIdentity(t.nodes[id]);
      SharedIsRebuilt(t, sel, upd, id, t.nodes[id]);
    }
    assert Selects(upd, mid.nodes[id]);
    assert id in SelectedIds(mid, upd);
  }
}
