/** A run in which an update stores the same content in two groups. */
module DedupMishap {
  import opened Requests
  import opened SetMishap
  import opened StoreDedup
  import opened StoreRuns
  import opened StoreSpec
  import opened Tables

  const NODE_A := Node(1, "", "", 1)
  const NODE_B := Node(2, "", "", 2)
  const CONFIG_A := Config("k", "", "a")
  const CONFIG_B := Config("k", "", "b")
  const GROUP_A := BootGroup(3, 4, NodesLabel(CONFIG_A), NodesLabel(CONFIG_A))
  const GROUP_B := BootGroup(5, 6, NodesLabel(CONFIG_B), NodesLabel(CONFIG_B))
  const AFTER_A := Tables(map[1 := NODE_A], [Assignment(3, 1)], map[3 := GROUP_A], map[4 := BootConfig(4, CONFIG_A)])
  const AFTER_B := Tables(
    map[1 := NODE_A, 2 := NODE_B], [Assignment(3, 1), Assignment(5, 2)],
    map[3 := GROUP_A, 5 := GROUP_B], map[4 := BootConfig(4, CONFIG_A), 6 := BootConfig(6, CONFIG_B)])

  const BOTH_ADDS := [AddOp(ForNid(1, CONFIG_A)), AddOp(ForNid(2, CONFIG_B))]
  const BOTH := Selector([], [], [1, 2])
  const MERGE := BootParams(BOTH, Config("", "", "c"))

  lemma AddA()
    ensures WellFormed(EMPTY) && Step(EMPTY, BOTH_ADDS[0], AFTER_A)
  {
    EmptyOk();
    assert !Stored(EMPTY, CONFIG_A);
    assert ById([NODE_A]) == map[1 := NODE_A];
    OneAdd(EMPTY, NODE_A, CONFIG_A, 3, AFTER_A);
  }

  lemma AddB()
    requires WellFormed(AFTER_A)
    ensures Step(AFTER_A, BOTH_ADDS[1], AFTER_B)
  {
    assert !Stored(AFTER_A, CONFIG_B);
    assert ById([NODE_B]) == map[2 := NODE_B];
    assert NewPair(AFTER_A, AFTER_B, 5, CONFIG_B);
    OneAdd(AFTER_A, NODE_B, CONFIG_B, 5, AFTER_B);
  }

  lemma BothReached()
    ensures Reaches(BOTH_ADDS, AFTER_B) && WellFormed(AFTER_B)
  {
    AddA();
    assert BOTH_ADDS[..1] == [BOTH_ADDS[0]] && BOTH_ADDS[..1][..0] == [];
    assert Reaches(BOTH_ADDS[..1][..0], EMPTY);
    assert Reaches(BOTH_ADDS[..1], AFTER_A);
    EveryRunIsWellFormed(BOTH_ADDS[..1], AFTER_A);
    AddB();
    EveryRunIsWellFormed(BOTH_ADDS, AFTER_B);
  }

  lemma BothCollapse()
    requires WellFormed(AFTER_B)
    ensures UpdateCollapses(AFTER_B, MERGE) && Deduplicated(AFTER_B)
  {
    var t := AFTER_B;
    assert t.nodes[1].nid == 1 && t.nodes[2].nid == 2;
    assert KnownNid(t, 1) && KnownNid(t, 2);
    assert Missing(t, BOTH).Everything();
    assert 1 in SelectedIds(t, BOTH);
    assert t.assignments[0] in t.assignments && t.assignments[1] in t.assignments;
    assert 3 in Touched(t, BOTH) && 5 in Touched(t, BOTH);
    assert ConfigAt(t, 3) == CONFIG_A && ConfigAt(t, 5) == CONFIG_B;
  }

  /** Two adds with different parameters, then an update of both nodes to the
      same ones: however it is carried out, two groups hold the same content. */
  lemma UpdateStoresTwice(t': Tables, o: Outcome)
    requires WellFormed(AFTER_B) && UpdateStep(AFTER_B, MERGE, t', o)
    ensures Reaches(BOTH_ADDS, AFTER_B) && Deduplicated(AFTER_B)
    ensures WellFormed(t') && !Deduplicated(t')
  {
    hide WellFormed, UpdateStep, Deduplicated, UpdateCollapses, Reaches;
    BothReached();
    BothCollapse();
    UpdateStepDeduplicatedIff(AFTER_B, MERGE, t', o);
  }
}
