/** The identities that nodes are found by, and how an add keeps them unique. */
module Identities {
  import opened Requests
  import opened Tables

  predicate HasIdentity(n: Node) { n.mac != "" || n.xname != "" || n.nid != 0 }

  /** No non-blank identity of m is shared with n. */
  predicate Apart(m: Node, n: Node) {
    && (m.mac != "" ==> m.mac != n.mac)
    && (m.xname != "" ==> m.xname != n.xname)
    && (m.nid != 0 ==> m.nid != n.nid)
  }

  /** MACs are stored in lower case, as every add does. */
  predicate MacsLower(t: Tables) {
    forall id | id in t.nodes :: Lower(t.nodes[id].mac) == t.nodes[id].mac
  }

  /** Every node has an identity, MACs are stored in lower case, and each
      non-blank MAC, xname and NID belongs to one node. */
  predicate IdentitiesOk(t: Tables) {
    && MacsLower(t) && (forall id | id in t.nodes :: HasIdentity(t.nodes[id]))
    && (forall i, j | i in t.nodes && j in t.nodes && i != j :: Apart(t.nodes[i], t.nodes[j]))
  }

  predicate DistinctNonBlank(wanted: seq<Node>) {
    && (forall i | 0 <= i < |wanted| :: HasIdentity(wanted[i]))
    && (forall i, j | 0 <= i < j < |wanted| :: wanted[i] != wanted[j])
  }

  lemma LowerTwice(s: string)
    ensures Lower(Lower(s)) == Lower(s)
  {}

  /** A wanted node carries one kind of identity, in lower case, that no stored
      node has. */
  lemma WantedShape(t: Tables, sel: Selector, i: nat)
    requires i < |Wanted(t, sel)|
    ensures var w := Wanted(t, sel)[i];
            Lower(w.mac) == w.mac
            && (forall id | id in t.nodes :: Apart(w, t.nodes[id]) && Apart(t.nodes[id], w))
            && (if sel.xnames != [] then w.mac == "" && w.nid == 0 && !KnownXname(t, w.xname)
                else if sel.macs != [] then w.xname == "" && w.nid == 0
                else w.mac == "" && w.xname == "" && !KnownNid(t, w.nid))
  {
    if sel.xnames != [] {
      var xs := MissingXnames(t, sel.xnames);
      assert xs[i] in xs;
    } else if sel.macs != [] {
      var ms := MissingMacs(t, sel.macs);
      assert ms[i] in ms;
      LowerTwice(ms[i]);
    } else {
      var ns := MissingNids(t, sel.nids);
      assert ns[i] in ns;
    }
  }

  /** A wanted node is selected by the selectors of the add once it is stored. */
  lemma WantedSelected(t: Tables, sel: Selector, i: nat, n: Node)
    requires i < |Wanted(t, sel)| && n.(id := BLANK_ID) == Wanted(t, sel)[i]
    ensures Selects(FirstKind(sel), n) && Selects(sel, n)
  {
    if sel.xnames != [] {
      assert n.xname in MissingXnames(t, sel.xnames);
    } else if sel.macs != [] {
      var m := MissingMacs(t, sel.macs)[i];
      assert m in MissingMacs(t, sel.macs) && m in sel.macs && Lower(m) == n.mac;
    } else {
      assert n.nid in MissingNids(t, sel.nids);
    }
  }

  lemma WantedApart(t: Tables, sel: Selector, i: nat, j: nat)
    requires i < |Wanted(t, sel)| && j < |Wanted(t, sel)|
    requires HasIdentity(Wanted(t, sel)[i])
    ensures Apart(Wanted(t, sel)[i], Wanted(t, sel)[j]) <==> Wanted(t, sel)[i] != Wanted(t, sel)[j]
  {}

  lemma AddedRow(t: Tables, wanted: seq<Node>, added: seq<Node>, t': Tables, id: Id) returns (i: nat)
    requires Numbered(wanted, added) && DistinctIds(added) && t'.nodes == t.nodes + ById(added)
    requires id in t'.nodes && id !in t.nodes
    ensures i < |added| && added[i].id == id && t'.nodes[id] == added[i] && added[i].(id := BLANK_ID) == wanted[i]
  {
    var n := ById(added)[id];
    i :| 0 <= i < |added| && added[i] == n;
  }

  lemma AddKeepsMacsLower(t: Tables, sel: Selector, added: seq<Node>, t': Tables)
    requires MacsLower(t) && Numbered(Wanted(t, sel), added) && DistinctIds(added)
    requires t'.nodes == t.nodes + ById(added)
    ensures MacsLower(t')
  {
    forall id | id in t'.nodes ensures Lower(t'.nodes[id].mac) == t'.nodes[id].mac {
      if id !in ById(added) {
        assert t'.nodes[id] == t.nodes[id];
      } else {
        var i :| 0 <= i < |added| && added[i] == t'.nodes[id];
        WantedShape(t, sel, i);
      }
    }
  }

  lemma {:induction false} DistinctRowsKept(t: Tables, sel: Selector, added: seq<Node>, t': Tables, a: Id, b: Id)
    requires Numbered(Wanted(t, sel), added) && DistinctIds(added) && DistinctNonBlank(Wanted(t, sel))
    requires t'.nodes == t.nodes + ById(added) && (forall n | n in added :: n.id !in t.nodes)
    requires IdentitiesOk(t) && a in t'.nodes && b in t'.nodes && a != b
    ensures Apart(t'.nodes[a], t'.nodes[b])
    ensures HasIdentity(t'.nodes[a]) && Lower(t'.nodes[a].mac) == t'.nodes[a].mac
  {
    var w := Wanted(t, sel);
    if a !in t.nodes {
      var i := AddedRow(t, w, added, t', a);
      WantedShape(t, sel, i);
      if b !in t.nodes {
        var j := AddedRow(t, w, added, t', b);
        WantedApart(t, sel, i, j);
        assert i != j && w[i] != w[j];
      }
    } else if b !in t.nodes {
      var j := AddedRow(t, w, added, t', b);
      WantedShape(t, sel, j);
    }
  }

  lemma DistinctKeepsIdentities(t: Tables, sel: Selector, added: seq<Node>, t': Tables)
    requires IdentitiesOk(t) && Numbered(Wanted(t, sel), added) && DistinctIds(added)
    requires t'.nodes == t.nodes + ById(added) && (forall n | n in added :: n.id !in t.nodes)
    requires DistinctNonBlank(Wanted(t, sel))
    ensures IdentitiesOk(t')
  {
    forall a, b | a in t'.nodes && b in t'.nodes && a != b ensures Apart(t'.nodes[a], t'.nodes[b]) {
      DistinctRowsKept(t, sel, added, t', a, b);
    }
    AddKeepsMacsLower(t, sel, added, t');
    forall a | a in t'.nodes ensures HasIdentity(t'.nodes[a]) {
      if a !in t.nodes { var i := AddedRow(t, Wanted(t, sel), added, t', a); }
    }
  }

  lemma IdentitiesAreDistinct(t: Tables, sel: Selector, added: seq<Node>, t': Tables)
    requires IdentitiesOk(t') && Numbered(Wanted(t, sel), added) && DistinctIds(added)
    requires t'.nodes == t.nodes + ById(added)
    ensures DistinctNonBlank(Wanted(t, sel))
  {
    hide Wanted, Apart;
    var w := Wanted(t, sel);
    forall i | 0 <= i < |w| ensures HasIdentity(w[i]) {
      assert added[i] in added && t'.nodes[added[i].id] == added[i];
    }
    forall i, j | 0 <= i < j < |w| ensures w[i] != w[j] {
      assert added[i] in added && added[j] in added;
      assert Apart(t'.nodes[added[i].id], t'.nodes[added[j].id]);
      ApartDiffer(added[i], added[j]);
    }
  }

  lemma ApartDiffer(m: Node, n: Node)
    requires HasIdentity(m) && Apart(m, n)
    ensures m.(id := BLANK_ID) != n.(id := BLANK_ID)
  {}

  /** An add keeps identities unique exactly when the identities it inserts are
      non-blank and pairwise different. */
  lemma AddKeepsIdentitiesIff(t: Tables, sel: Selector, added: seq<Node>, t': Tables)
    requires IdentitiesOk(t) && Numbered(Wanted(t, sel), added) && DistinctIds(added)
    requires t'.nodes == t.nodes + ById(added) && (forall n | n in added :: n.id !in t.nodes)
    ensures IdentitiesOk(t') <==> DistinctNonBlank(Wanted(t, sel))
  {
    hide Wanted, IdentitiesOk, DistinctNonBlank;
    if DistinctNonBlank(Wanted(t, sel)) { DistinctKeepsIdentities(t, sel, added, t'); }
    if IdentitiesOk(t') { IdentitiesAreDistinct(t, sel, added, t'); }
  }
}
