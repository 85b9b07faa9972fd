/** Requests against the store: which nodes a request asks for, and what each
    of the four operations answers and does, errors included. */
module Requests {
  import opened Tables
  import opened StoreSpec

  /** hosts, macs and nids of the request, and its kernel, initrd and params. */
  datatype BootParams = BootParams(sel: Selector, config: Config)

  // ------------------------------------------------------- what does not exist

  predicate KnownMac(t: Tables, mac: string) {
    exists id :: id in t.nodes && t.nodes[id].mac == Lower(mac)
  }

  predicate KnownXname(t: Tables, xname: string) {
    exists id :: id in t.nodes && t.nodes[id].xname == xname
  }

  predicate KnownNid(t: Tables, nid: int) {
    exists id :: id in t.nodes && t.nodes[id].nid == nid
  }

  function MissingMacs(t: Tables, macs: seq<string>): (r: seq<string>)
    ensures forall m :: m in r <==> m in macs && !KnownMac(t, m)
    ensures r == [] <==> forall m | m in macs :: KnownMac(t, m)
  {
    if macs == [] then []
    else
      var rest, m := macs[..|macs| - 1], macs[|macs| - 1];
      MissingMacs(t, rest) + if KnownMac(t, m) then [] else [m]
  }

  function MissingXnames(t: Tables, xnames: seq<string>): (r: seq<string>)
    ensures forall x :: x in r <==> x in xnames && !KnownXname(t, x)
    ensures r == [] <==> forall x | x in xnames :: KnownXname(t, x)
  {
    if xnames == [] then []
    else
      var rest, x := xnames[..|xnames| - 1], xnames[|xnames| - 1];
      MissingXnames(t, rest) + if KnownXname(t, x) then [] else [x]
  }

  function MissingNids(t: Tables, nids: seq<int>): (r: seq<int>)
    ensures forall n :: n in r <==> n in nids && !KnownNid(t, n)
    ensures r == [] <==> forall n | n in nids :: KnownNid(t, n)
  {
    if nids == [] then []
    else
      var rest, n := nids[..|nids| - 1], nids[|nids| - 1];
      MissingNids(t, rest) + if KnownNid(t, n) then [] else [n]
  }

  lemma MissingMacsNext(t: Tables, macs: seq<string>, k: nat)
    requires k < |macs|
    ensures KnownMac(t, macs[k]) ==> MissingMacs(t, macs[..k + 1]) == MissingMacs(t, macs[..k])
    ensures !KnownMac(t, macs[k]) ==> MissingMacs(t, macs[..k + 1]) == MissingMacs(t, macs[..k]) + [macs[k]]
  {
    assert macs[..k + 1][..k] == macs[..k];
  }

  lemma MissingXnamesNext(t: Tables, xnames: seq<string>, k: nat)
    requires k < |xnames|
    ensures KnownXname(t, xnames[k]) ==> MissingXnames(t, xnames[..k + 1]) == MissingXnames(t, xnames[..k])
    ensures !KnownXname(t, xnames[k]) ==>
              MissingXnames(t, xnames[..k + 1]) == MissingXnames(t, xnames[..k]) + [xnames[k]]
  {
    assert xnames[..k + 1][..k] == xnames[..k];
  }

  lemma MissingNidsNext(t: Tables, nids: seq<int>, k: nat)
    requires k < |nids|
    ensures KnownNid(t, nids[k]) ==> MissingNids(t, nids[..k + 1]) == MissingNids(t, nids[..k])
    ensures !KnownNid(t, nids[k]) ==> MissingNids(t, nids[..k + 1]) == MissingNids(t, nids[..k]) + [nids[k]]
  {
    assert nids[..k + 1][..k] == nids[..k];
  }

  function Missing(t: Tables, sel: Selector): Selector {
    Selector(MissingMacs(t, sel.macs), MissingXnames(t, sel.xnames), MissingNids(t, sel.nids))
  }

  /** Add and Delete act on the first kind of selector only: hosts, then macs,
      then nids. */
  function FirstKind(sel: Selector): Selector {
    if sel.xnames != [] then Selector([], sel.xnames, [])
    else if sel.macs != [] then Selector(sel.macs, [], [])
    else Selector([], [], sel.nids)
  }

  /** The new node rows an add asks for, not yet numbered. */
  function Wanted(t: Tables, sel: Selector): seq<Node> {
    var m := Missing(t, FirstKind(sel));
    if sel.xnames != [] then seq(|m.xnames|, i requires 0 <= i < |m.xnames| => Node(BLANK_ID, "", m.xnames[i], 0))
    else if sel.macs != [] then seq(|m.macs|, i requires 0 <= i < |m.macs| => Node(BLANK_ID, Lower(m.macs[i]), "", 0))
    else seq(|m.nids|, i requires 0 <= i < |m.nids| => Node(BLANK_ID, "", "", m.nids[i]))
  }

  predicate Numbered(wanted: seq<Node>, added: seq<Node>) {
    |added| == |wanted| && forall i | 0 <= i < |added| :: added[i].(id := BLANK_ID) == wanted[i]
  }

  // ---------------------------------------------------------------- operations

  datatype Refusal =
    | Duplicate | BlankKernel | BlankPatch | NotExists(missing: Selector) | NoNodeIds | NothingSelected

  datatype Outcome = Done | Refused(why: Refusal)

  ghost predicate AddStep(t: Tables, bp: BootParams, t': Tables, o: Outcome)
    requires WellFormed(t)
  {
    if Wanted(t, bp.sel) == [] then o == Refused(Duplicate) && t' == t
    else if bp.config.kernel == "" then o == Refused(BlankKernel) && t' == t
    else o == Done && exists added :: Numbered(Wanted(t, bp.sel), added) && Adds(t, added, bp.config, t')
  }

  ghost predicate UpdateStep(t: Tables, bp: BootParams, t': Tables, o: Outcome)
    requires WellFormed(t)
  {
    var missing := Missing(t, bp.sel);
    if !missing.Everything() then o == Refused(NotExists(missing)) && t' == t
    else if bp.config.Blank() then o == Refused(BlankPatch) && t' == t
    else if SelectedIds(t, bp.sel) == {} then o == Refused(NoNodeIds) && t' == t
    else o == Done && Updates(t, bp.sel, bp.config, t')
  }

  /** The non-blank identities of the selected nodes, in any order. */
  ghost predicate Rebuilt(t: Tables, sel: Selector, upd: Selector) {
    && (forall m :: m in upd.macs <==> m != "" && exists id :: SelectsId(t, sel, id) && t.nodes[id].mac == m)
    && (forall x :: x in upd.xnames <==> x != "" && exists id :: SelectsId(t, sel, id) && t.nodes[id].xname == x)
    && (forall n :: n in upd.nids <==> n != 0 && exists id :: SelectsId(t, sel, id) && t.nodes[id].nid == n)
  }

  /** Set adds what is missing, then updates what was there. */
  ghost predicate SetStep(t: Tables, bp: BootParams, t': Tables, o: Outcome)
    requires WellFormed(t)
  {
    if bp.config.Blank() then o == Refused(BlankPatch) && t' == t
    else exists mid, upd, oa :: SetVia(t, bp, mid, upd, oa, t', o)
  }

  ghost predicate SetVia(t: Tables, bp: BootParams, mid: Tables, upd: Selector, oa: Outcome, t': Tables, o: Outcome)
    requires WellFormed(t)
  {
    var missing := Missing(t, bp.sel);
    && Rebuilt(t, bp.sel, upd)
    && (if missing.Everything() then oa == Done && mid == t
        else AddStep(t, BootParams(missing, bp.config), mid, oa))
    && (if oa.Refused? || SelectedIds(t, bp.sel) == {} then t' == mid && o == oa
        else WellFormed(mid) && UpdateStep(mid, BootParams(upd, bp.config), t', o))
  }

  ghost predicate DeleteStep(t: Tables, bp: BootParams, t': Tables, o: Outcome) {
    if !bp.sel.Everything() then
      var sel := FirstKind(bp.sel);
      if SelectedIds(t, sel) == {} then o == Refused(NothingSelected) && t' == t
      else o == Done && t' == DeletedNodes(t, sel)
    else if !bp.config.Blank() then o == Done && t' == DeletedItems(t, bp.config)
    else o == Done && t' == t
  }
}
