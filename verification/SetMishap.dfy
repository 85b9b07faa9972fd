/** Runs in which Set changes a node that its request does not select, and in
    which a second Set does not leave the map alone. */
module SetMishap {
  import opened Identities
  import opened Requests
  import opened SetHits
  import opened SetLaws
  import opened SetTwice
  import opened StoreRuns
  import opened StoreSpec
  import opened Tables

  const NODE_NID_0 := Node(1, "", "", 0)
  const NODE_NID_5 := Node(2, "", "", 5)
  const KERNEL_ONLY := Config("k", "", "")
  const ONE_GROUP := map[3 := BootGroup(3, 4, NodesLabel(KERNEL_ONLY), NodesLabel(KERNEL_ONLY))]
  const ONE_CONFIG := map[4 := BootConfig(4, KERNEL_ONLY)]
  const ONE_NODE := Tables(map[1 := NODE_NID_0], [Assignment(3, 1)], ONE_GROUP, ONE_CONFIG)
  const TWO_NODES :=
    Tables(map[1 := NODE_NID_0, 2 := NODE_NID_5], [Assignment(3, 1), Assignment(3, 2)], ONE_GROUP, ONE_CONFIG)

  function ForNid(nid: int, c: Config): BootParams { BootParams(Selector([], [], [nid]), c) }

  const ADDS := [AddOp(ForNid(0, KERNEL_ONLY)), AddOp(ForNid(5, KERNEL_ONLY))]

  lemma WantsNid(t: Tables, nid: int)
    requires !KnownNid(t, nid)
    ensures Wanted(t, Selector([], [], [nid])) == [Node(BLANK_ID, "", "", nid)]
  {
    assert MissingNids(t, []) == [];
    assert MissingNids(t, [nid]) == [nid];
  }

  lemma OneAdd(t: Tables, n: Node, c: Config, g: Id, t': Tables)
    requires WellFormed(t) && !KnownNid(t, n.nid) && n == Node(n.id, "", "", n.nid) && AddsTo(t, [n], c, g, t')
    ensures Step(t, AddOp(ForNid(n.nid, c)), t')
  {
    var bp := ForNid(n.nid, c);
    WantsNid(t, n.nid);
    assert Numbered(Wanted(t, bp.sel), [n]) && Adds(t, [n], c, t');
    assert Answers(t, AddOp(bp), t', Done);
  }

  lemma FirstAdd()
    ensures WellFormed(EMPTY) && Step(EMPTY, ADDS[0], ONE_NODE)
  {
    EmptyOk();
    assert !Stored(EMPTY, KERNEL_ONLY);
    assert ById([NODE_NID_0]) == map[1 := NODE_NID_0];
    OneAdd(EMPTY, NODE_NID_0, KERNEL_ONLY, 3, ONE_NODE);
  }

  lemma SecondAdd()
    requires WellFormed(ONE_NODE)
    ensures Step(ONE_NODE, ADDS[1], TWO_NODES)
  {
    assert 3 in ONE_GROUP && ConfigAt(ONE_NODE, 3) == KERNEL_ONLY;
    assert ById([NODE_NID_5]) == map[2 := NODE_NID_5];
    OneAdd(ONE_NODE, NODE_NID_5, KERNEL_ONLY, 3, TWO_NODES);
  }

  /** Two adds lead to tables with a node of NID 0 and one of NID 5. */
  lemma TwoNodesReached()
    ensures Reaches(ADDS, TWO_NODES) && WellFormed(TWO_NODES) && MacsLower(TWO_NODES)
  {
    FirstAdd();
    assert ADDS[..1] == [ADDS[0]] && ADDS[..1][..0] == [];
    assert Reaches(ADDS[..1][..0], EMPTY);
    assert Reaches(ADDS[..1], ONE_NODE);
    EveryRunIsWellFormed(ADDS[..1], ONE_NODE);
    SecondAdd();
    EveryRunIsWellFormed(ADDS, TWO_NODES);
  }

  /** A Set for NID 0 alone then changes NID 5 too, which it does not select:
      its own node has no identity, so the update that follows names no node,
      which means all of them. */
  lemma SetHitsUnselected(t': Tables, o: Outcome)
    requires WellFormed(TWO_NODES) && SetStep(TWO_NODES, ForNid(0, Config("", "", "p")), t', o)
    ensures Reaches(ADDS, TWO_NODES) && !Selects(ForNid(0, Config("", "", "p")).sel, NODE_NID_5)
    ensures o == Done && WellFormed(t') && NODE_NID_5 in View(TWO_NODES) && NODE_NID_5 in View(t')
    ensures View(TWO_NODES)[NODE_NID_5] == KERNEL_ONLY && View(t')[NODE_NID_5] == Config("k", "", "p")
  {
    hide WellFormed, SetStep, Reaches, Hit, Missing;
    TwoNodesReached();
    TwoNodesHit();
    OnlyConfig(TWO_NODES, NODE_NID_5);
    HitNodeChanges(TWO_NODES, ForNid(0, Config("", "", "p")), t', o, NODE_NID_5);
  }

  lemma HitNodeChanges(t: Tables, bp: BootParams, t': Tables, o: Outcome, n: Node)
    requires WellFormed(t) && MacsLower(t) && SetStep(t, bp, t', o)
    requires !bp.config.Blank() && Missing(t, bp.sel).Everything() && n in View(t) && Hit(t, bp.sel, n)
    ensures o == Done && WellFormed(t') && n in View(t') && View(t')[n] == Overlay(View(t)[n], bp.config)
  {
    hide WellFormed, SetStep, MacsLower, Hit, Missing;
    var added := SetRefines(t, bp, t', o);
    assert forall m | m in added :: m != n;
  }

  lemma TwoNodesHit()
    ensures Missing(TWO_NODES, Selector([], [], [0])).Everything()
    ensures Hit(TWO_NODES, Selector([], [], [0]), NODE_NID_5)
  {
    var t, sel := TWO_NODES, Selector([], [], [0]);
    assert t.nodes[1].nid == 0 && KnownNid(t, 0);
    assert MissingNids(t, [0]) == [];
    assert 1 in SelectedIds(t, sel);
  }

  lemma OnlyConfig(t: Tables, n: Node)
    requires WellFormed(t) && n.id in t.nodes && t.nodes[n.id] == n && t.configs == ONE_CONFIG
    ensures n in View(t) && View(t)[n] == KERNEL_ONLY
  {
    assert GroupOk(t, t.groups[GroupOf(t, n.id)]);
  }

  // --------------------------------------------------------------- Set twice

  const BOTH_KINDS := BootParams(Selector(["m"], ["x"], []), KERNEL_ONLY)

  /** With a host and a MAC that are both new, the first Set adds the host, and
      the second the MAC. */
  lemma SecondSetAdds(t1: Tables, t2: Tables, o2: Outcome)
    requires WellFormed(EMPTY) && SetStep(EMPTY, BOTH_KINDS, t1, Done)
    requires WellFormed(t1) && SetStep(t1, BOTH_KINDS, t2, o2)
    ensures WellFormed(t2) && View(t2) != View(t1)
  {
    hide WellFormed, SetStep, Missing;
    EmptyOk();
    BothKindsMissing();
    SetIdempotentIff(EMPTY, BOTH_KINDS, t1, t2, o2);
  }

  lemma BothKindsMissing()
    ensures !OthersBlank(Missing(EMPTY, BOTH_KINDS.sel))
  {
    var m := Missing(EMPTY, BOTH_KINDS.sel);
    assert "x" in BOTH_KINDS.sel.xnames && "m" in BOTH_KINDS.sel.macs;
    assert !KnownXname(EMPTY, "x") && !KnownMac(EMPTY, "m");
    assert "x" in m.xnames && "m" in m.macs;
  }

  const ONLY_NID_5 := Tables(map[2 := NODE_NID_5], [Assignment(3, 2)], ONE_GROUP, ONE_CONFIG)
  const NEW_PARAMS := Config("k", "", "p")

  /** With NID 0 alone, the first Set adds its node, and the second, which finds
      no identity to name, changes every other node. */
  lemma SecondSetHitsAll(t1: Tables, t2: Tables, o2: Outcome)
    requires WellFormed(ONLY_NID_5) && SetStep(ONLY_NID_5, ForNid(0, NEW_PARAMS), t1, Done)
    requires WellFormed(t1) && SetStep(t1, ForNid(0, NEW_PARAMS), t2, o2)
    ensures WellFormed(t2) && View(t2) != View(t1)
  {
    hide WellFormed, SetStep, Missing, BlankAdd, HasFields;
    BlankIsAdded();
    OnlyConfig(ONLY_NID_5, NODE_NID_5);
    FieldsDiffer(View(ONLY_NID_5));
    SetIdempotentIff(ONLY_NID_5, ForNid(0, NEW_PARAMS), t1, t2, o2);
  }

  lemma FieldsDiffer(v: map<Node, Config>)
    requires NODE_NID_5 in v && v[NODE_NID_5] == KERNEL_ONLY
    ensures !HasFields(v, NEW_PARAMS)
  {}

  lemma BlankIsAdded()
    ensures BlankAdd(ONLY_NID_5, Selector([], [], [0])) && MacsLower(ONLY_NID_5)
  {
    var t, sel := ONLY_NID_5, Selector([], [], [0]);
    assert !KnownNid(t, 0);
    WantsNid(t, 0);
    assert Missing(t, sel) == sel by { assert MissingNids(t, [0]) == [0]; }
    forall id ensures id !in SelectedIds(t, sel) {}
  }
}
