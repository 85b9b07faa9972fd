/** The Postgres store: four tables changed statement by statement. */
module BootDb {
  import opened Common
  import opened Tables
  import opened StoreSpec
  import opened Requests
  import opened Identities
  import opened StatementSafety
  import opened UpdatePlan
  import opened TableFacts

  class BootDb {
    var nodes: map<Id, Node>
    var assignments: seq<Assignment>
    var groups: map<Id, BootGroup>
    var configs: map<Id, BootConfig>
    /** The next UUID to hand out. */
    var nextId: Id
    /** The tables at the start and after every statement executed so far. */
    ghost var history: seq<Tables>

    function State(): Tables
      reads `nodes, `assignments, `groups, `configs
    {
      Tables(nodes, assignments, groups, configs)
    }

    /** UUIDs are fresh: no id in use is still to be handed out. */
    predicate IdsFresh()
      reads `nodes, `groups, `configs, `nextId
    {
      && nextId > BLANK_ID
      && (forall id | id in nodes :: id < nextId)
      && (forall id | id in groups :: id < nextId)
      && (forall id | id in configs :: id < nextId)
    }

    /** No statement is missing: the history ends in the tables as they are, and
        its neighbours differ by one statement. */
    ghost predicate Recorded()
      reads `nodes, `assignments, `groups, `configs, `history
    {
      Consecutive(history, State())
    }

    ghost predicate Valid()
      reads this
    {
      WellFormed(State()) && IdsFresh() && Recorded()
    }

    constructor ()
      ensures Valid() && State() == EMPTY && history == [EMPTY]
    {
      nodes, assignments, groups, configs := map[], [], map[], map[];
      nextId := BLANK_ID + 1;
      history := [EMPTY];
    }

    /** Note the tables after a statement. */
    ghost method Record(before: Tables)
      requires Consecutive(history, before) && OneStatement(before, State())
      modifies `history
      ensures history == old(history) + [State()] && Recorded()
    {
      history := history + [State()];
    }

    method Generate() returns (id: Id)
      modifies `nextId
      ensures id == old(nextId) && nextId == id + 1
    {
      id := nextId;
      nextId := nextId + 1;
    }

    // ------------------------------------------------------------- statements

    method AddNodes(list: seq<Node>, ghost t0: Tables)
      requires IdsFresh() && DistinctIds(list)
      requires forall n | n in list :: n.id !in nodes && n.id < nextId
      requires Extends(t0, State()) && (forall n | n in list :: n.id !in t0.nodes)
      requires Recorded()
      modifies `nodes, `history
      ensures Recorded()
      ensures nodes == old(nodes) + ById(list) && IdsFresh()
      ensures old(history) <= history && Extends(t0, State())
      ensures forall i | |old(history)| <= i < |history| :: Extends(t0, history[i])
    {
      for k := 0 to |list|
        invariant Recorded()
        invariant IdsFresh() && Submap(old(nodes), nodes)
        invariant forall i | 0 <= i < k :: list[i].id in nodes && nodes[list[i].id] == list[i]
        invariant forall id | id in nodes && id !in old(nodes) :: nodes[id] in list[..k] && nodes[id].id == id
        invariant old(history) <= history && Extends(t0, State())
        invariant forall i | |old(history)| <= i < |history| :: Extends(t0, history[i])
      {
        assert list[k] in list;
        ghost var before := State();
        nodes := nodes[list[k].id := list[k]];
        Record(before);
      }
      InsertedNodes(old(nodes), list, nodes);
    }

    method AddBootConfigs(list: seq<BootConfig>)
      requires IdsFresh() && (forall bc | bc in list :: bc.id !in configs && bc.id < nextId)
      requires forall i, j | 0 <= i < j < |list| :: list[i].id != list[j].id
      requires Recorded()
      modifies `configs, `history
      ensures Recorded()
      ensures IdsFresh() && Submap(old(configs), configs)
      ensures forall bc | bc in list :: bc.id in configs && configs[bc.id] == bc
      ensures forall k | k in configs && k !in old(configs) :: configs[k] in list && configs[k].id == k
      ensures old(history) <= history
      ensures forall i | |old(history)| <= i < |history| ::
                history[i] == old(State()).(configs := history[i].configs) && Submap(old(configs), history[i].configs)
    {
      for k := 0 to |list|
        invariant Recorded()
        invariant IdsFresh() && Submap(old(configs), configs)
        invariant forall i | 0 <= i < k :: list[i].id in configs && configs[list[i].id] == list[i]
        invariant forall id | id in configs && id !in old(configs) :: configs[id] in list[..k] && configs[id].id == id
        invariant old(history) <= history
        invariant forall i | |old(history)| <= i < |history| ::
                    history[i] == old(State()).(configs := history[i].configs)
                      && Submap(old(configs), history[i].configs)
      {
        assert list[k] in list;
        ghost var before := State();
        configs := configs[list[k].id := list[k]];
        Record(before);
      }
    }

    method AddBootGroups(list: seq<BootGroup>)
      requires IdsFresh() && (forall bg | bg in list :: bg.id !in groups && bg.id < nextId)
      requires forall i, j | 0 <= i < j < |list| :: list[i].id != list[j].id
      requires Recorded()
      modifies `groups, `history
      ensures Recorded()
      ensures IdsFresh() && Submap(old(groups), groups)
      ensures forall bg | bg in list :: bg.id in groups && groups[bg.id] == bg
      ensures forall k | k in groups && k !in old(groups) :: groups[k] in list && groups[k].id == k
      ensures old(history) <= history
      ensures forall i | |old(history)| <= i < |history| ::
                history[i] == old(State()).(groups := history[i].groups) && Submap(old(groups), history[i].groups)
    {
      for k := 0 to |list|
        invariant Recorded()
        invariant IdsFresh() && Submap(old(groups), groups)
        invariant forall i | 0 <= i < k :: list[i].id in groups && groups[list[i].id] == list[i]
        invariant forall id | id in groups && id !in old(groups) :: groups[id] in list[..k] && groups[id].id == id
        invariant old(history) <= history
        invariant forall i | |old(history)| <= i < |history| ::
                    history[i] == old(State()).(groups := history[i].groups) && Submap(old(groups), history[i].groups)
      {
        assert list[k] in list;
        ghost var before := State();
        groups := groups[list[k].id := list[k]];
        Record(before);
      }
    }

    method AddBootGroupAssignments(list: seq<Assignment>, ghost t0: Tables)
      requires Extends(t0, State()) && (forall a | a in list :: a.node !in t0.nodes)
      requires Recorded()
      modifies `assignments, `history
      ensures Recorded()
      ensures assignments == old(assignments) + list
      ensures old(history) <= history && Extends(t0, State())
      ensures forall i | |old(history)| <= i < |history| :: Extends(t0, history[i])
    {
      for k := 0 to |list|
        invariant Recorded()
        invariant assignments == old(assignments) + list[..k]
        invariant old(history) <= history && Extends(t0, State())
        invariant forall i | |old(history)| <= i < |history| :: Extends(t0, history[i])
      {
        assert list[k] in list;
        assert list[..k + 1] == list[..k] + [list[k]];
        ghost var before := State();
        assignments := assignments + [list[k]];
        Record(before);
      }
    }

    // ---------------------------------------------------------------- queries

    /** SELECT from nodes; the rows come in any order. */
    method GetNodesByItems(sel: Selector) returns (list: seq<Node>)
      requires KeyedById(State())
      ensures forall n :: n in list <==> n.id in nodes && nodes[n.id] == n && Selects(sel, n)
    {
      list := [];
      var rest := nodes.Keys;
      while rest != {}
        invariant rest <= nodes.Keys
        invariant forall n :: n in list <==> n.id in nodes && n.id !in rest && nodes[n.id] == n && Selects(sel, n)
        decreases rest
      {
        var id :| id in rest;
        rest := rest - {id};
        if Selects(sel, nodes[id]) { list := list + [nodes[id]]; }
      }
    }

    method NodesByMac(list: seq<Node>) returns (m: map<string, Node>)
      ensures forall k :: k in m <==> exists n :: n in list && n.mac == k
    {
      m := map[];
      for i := 0 to |list|
        invariant forall k :: k in m <==> exists n :: n in list[..i] && n.mac == k
      {
        assert list[..i + 1] == list[..i] + [list[i]];
        m := m[list[i].mac := list[i]];
      }
      assert list[..|list|] == list;
    }

    method NodesByXname(list: seq<Node>) returns (m: map<string, Node>)
      ensures forall k :: k in m <==> exists n :: n in list && n.xname == k
    {
      m := map[];
      for i := 0 to |list|
        invariant forall k :: k in m <==> exists n :: n in list[..i] && n.xname == k
      {
        assert list[..i + 1] == list[..i] + [list[i]];
        m := m[list[i].xname := list[i]];
      }
      assert list[..|list|] == list;
    }

    method NodesByNid(list: seq<Node>) returns (m: map<int, Node>)
      ensures forall k :: k in m <==> exists n :: n in list && n.nid == k
    {
      m := map[];
      for i := 0 to |list|
        invariant forall k :: k in m <==> exists n :: n in list[..i] && n.nid == k
      {
        assert list[..i + 1] == list[..i] + [list[i]];
        m := m[list[i].nid := list[i]];
      }
      assert list[..|list|] == list;
    }

    method FilterMacs(macs: seq<string>, known: map<string, Node>) returns (missing: seq<string>)
      requires forall m | m in macs :: Lower(m) in known <==> KnownMac(State(), m)
      ensures missing == MissingMacs(State(), macs)
    {
      missing := [];
      for i := 0 to |macs|
        invariant missing == MissingMacs(State(), macs[..i])
      {
        assert macs[..i + 1][..i] == macs[..i] && macs[i] in macs;
        if Lower(macs[i]) !in known { missing := missing + [macs[i]]; }
      }
      assert macs[..|macs|] == macs;
    }

    method FilterXnames(xnames: seq<string>, known: map<string, Node>) returns (missing: seq<string>)
      requires forall x | x in xnames :: x in known <==> KnownXname(State(), x)
      ensures missing == MissingXnames(State(), xnames)
    {
      missing := [];
      for i := 0 to |xnames|
        invariant missing == MissingXnames(State(), xnames[..i])
      {
        assert xnames[..i + 1][..i] == xnames[..i] && xnames[i] in xnames;
        if xnames[i] !in known { missing := missing + [xnames[i]]; }
      }
      assert xnames[..|xnames|] == xnames;
    }

    method FilterNids(nids: seq<int>, known: map<int, Node>) returns (missing: seq<int>)
      requires forall n | n in nids :: n in known <==> KnownNid(State(), n)
      ensures missing == MissingNids(State(), nids)
    {
      missing := [];
      for i := 0 to |nids|
        invariant missing == MissingNids(State(), nids[..i])
      {
        var n := nids[i];
        assert nids[..i + 1][..i] == nids[..i] && n in nids;
        if n !in known { missing := missing + [n]; }
      }
      assert nids[..|nids|] == nids;
    }

    /** Which selectors of the request have no node. */
    method CheckNodeExistence(sel: Selector) returns (existing: seq<Node>, missing: Selector)
      requires KeyedById(State())
      ensures forall n :: n in existing <==> n.id in nodes && nodes[n.id] == n && Selects(sel, n)
      ensures missing == Missing(State(), sel)
    {
      existing := GetNodesByItems(sel);
      var byMac := NodesByMac(existing);
      var byXname := NodesByXname(existing);
      var byNid := NodesByNid(existing);
      ExistingAreKnown(State(), sel, existing);
      var macs := FilterMacs(sel.macs, byMac);
      var xnames := FilterXnames(sel.xnames, byXname);
      var nids := FilterNids(sel.nids, byNid);
      missing := Selector(macs, xnames, nids);
    }

    /** SELECT of groups joined with their configs; each matching row once, in
        any order, as one list of groups and one of configs. */
    method GetBootConfigsByItems(items: Config) returns (bgs: seq<BootGroup>, bcs: seq<BootConfig>)
      requires KeyedById(State()) && GroupsOk(State())
      ensures |bgs| == |bcs| && forall i | 0 <= i < |bgs| :: JoinedRow(State(), items, bgs[i], bcs[i])
      ensures forall i, j | 0 <= i < j < |bgs| :: bgs[i].id != bgs[j].id
      ensures forall g | g in groups && groups[g].configId in configs && MatchesAny(items, ConfigAt(State(), g)) ::
                groups[g] in bgs
    {
      bgs, bcs := [], [];
      ghost var t := State();
      var rest := groups.Keys;
      while rest != {}
        invariant rest <= groups.Keys && |bgs| == |bcs|
        invariant forall i | 0 <= i < |bgs| :: JoinedRow(t, items, bgs[i], bcs[i]) && bgs[i].id !in rest
        invariant forall i, j | 0 <= i < j < |bgs| :: bgs[i].id != bgs[j].id
        invariant forall g | g in groups && g !in rest && groups[g].configId in configs
                    && MatchesAny(items, ConfigAt(t, g)) :: groups[g] in bgs
        decreases rest
      {
        var g :| g in rest;
        rest := rest - {g};
        assert GroupOk(t, groups[g]);
        var bg, bc := groups[g], configs[groups[g].configId];
        if MatchesAny(items, bc.config) {
          assert JoinedRow(t, items, bg, bc);
          bgs, bcs := bgs + [bg], bcs + [bc];
        }
      }
    }

    /** The first row whose label and content are the requested ones. */
    method FindStored(c: Config) returns (found: bool, bg: BootGroup)
      requires KeyedById(State()) && GroupsOk(State()) && c.kernel != ""
      ensures found <==> Stored(State(), c)
      ensures found ==> bg.id in groups && groups[bg.id] == bg && bg.configId in configs
                        && ConfigAt(State(), bg.id) == c
    {
      var bgs, bcs := GetBootConfigsByItems(c);
      bg := BootGroup(BLANK_ID, BLANK_ID, NodesLabel(c), NodesLabel(c));
      for i := 0 to |bgs|
        invariant forall j | 0 <= j < i :: bcs[j].config != c
      {
        assert GroupOk(State(), groups[bgs[i].id]);
        if bgs[i].name == NodesLabel(c) && bgs[i].description == NodesLabel(c) && bcs[i].config == c {
          return true, bgs[i];
        }
      }
      found := false;
    }

    /** A new group and its config, the config first. */
    method InsertPair(c: Config) returns (bgId: Id, bcId: Id)
      requires Recorded() && IdsFresh()
      modifies `nextId, `configs, `groups, `history
      ensures Recorded() && IdsFresh() && nextId >= old(nextId) && old(history) <= history
      ensures bgId !in old(groups) && bcId !in old(configs) && bgId != BLANK_ID && bcId != BLANK_ID
      ensures groups == old(groups)[bgId := BootGroup(bgId, bcId, NodesLabel(c), NodesLabel(c))]
      ensures configs == old(configs)[bcId := BootConfig(bcId, c)]
      ensures forall i | |old(history)| <= i < |history| :: Extends(old(State()), history[i])
    {
      hide Consecutive;
      bcId := Generate();
      bgId := Generate();
      var bg := BootGroup(bgId, bcId, NodesLabel(c), NodesLabel(c));
      var bc := BootConfig(bcId, c);
      AddBootConfigs([bc]);
      assert bc in [bc];
      SameMap(configs, old(configs)[bcId := bc]);
      AddBootGroups([bg]);
      assert bg in [bg];
      SameMap(groups, old(groups)[bgId := bg]);
    }

    /** The group the nodes of an add go to: the stored one, or a new pair. */
    method GroupFor(c: Config) returns (g: Id, result: map<Id, Id>)
      requires Valid() && c.kernel != ""
      modifies `nextId, `configs, `groups, `history
      ensures Recorded()
      ensures IdsFresh() && nextId >= old(nextId) && old(history) <= history
      ensures Extends(old(State()), State()) && TargetsGroup(old(State()), c, g, State())
      ensures result == if Stored(old(State()), c) then map[] else map[g := State().groups[g].configId]
      ensures forall i | |old(history)| <= i < |history| :: Extends(old(State()), history[i])
    {
      var found, bg := FindStored(c);
      if found { return bg.id, map[]; }
      var bcId;
      g, bcId := InsertPair(c);
      result := map[g := bcId];
    }

    method InsertNodes(list: seq<Node>, g: Id, ghost t0: Tables)
      requires IdsFresh() && DistinctIds(list) && Extends(t0, State())
      requires forall n | n in list :: n.id !in nodes && n.id !in t0.nodes && n.id < nextId
      requires Recorded()
      modifies `nodes, `assignments, `history
      ensures Recorded()
      ensures IdsFresh() && old(history) <= history
      ensures nodes == old(nodes) + ById(list) && assignments == old(assignments) + AssignAll(g, list)
      ensures forall i | |old(history)| <= i < |history| :: Extends(t0, history[i])
    {
      AddNodes(list, t0);
      AddBootGroupAssignments(AssignAll(g, list), t0);
    }

    /** Insert nodes together with one group and config for all of them, or with
        assignments to a stored group that already has the content. */
    method AddBootConfigByNode(list: seq<Node>, c: Config) returns (o: Outcome, result: map<Id, Id>)
      requires Valid() && list != [] && DistinctIds(list)
      requires forall n | n in list :: n.id !in nodes && BLANK_ID < n.id < nextId
      modifies this
      ensures Valid() && old(history) <= history
      ensures if c.kernel == "" then o == Refused(BlankKernel) && State() == old(State())
              else o == Done && Adds(old(State()), list, c, State())
      ensures result.Keys == groups.Keys - old(groups).Keys
      ensures forall g | g in result :: result[g] == groups[g].configId
      ensures forall i | |old(history)| <= i < |history| :: Extends(old(State()), history[i])
    {
      hide WellFormed, Adds, Stored, Extends;
      result := map[];
      if c.kernel == "" { return Refused(BlankKernel), result; }
      ghost var t0 := State();
      var g;
      g, result := GroupFor(c);
      InsertNodes(list, g, t0);
      o := Done;
      AddCompletes(t0, list, c, g, State());
    }

    method NewNodesByXname(xnames: seq<string>, known: map<string, Node>, ghost t: Tables) returns (list: seq<Node>)
      requires forall x | x in xnames :: x in known <==> KnownXname(t, x)
      modifies `nextId
      ensures nextId == old(nextId) + |list|
      ensures var m := MissingXnames(t, xnames);
              |list| == |m| && forall i | 0 <= i < |m| :: list[i] == Node(old(nextId) + i, "", m[i], 0)
    {
      hide MissingXnames, KnownXname;
      list := [];
      ghost var missing, from := [], nextId;
      for k := 0 to |xnames|
        invariant nextId == from + |list| && missing == MissingXnames(t, xnames[..k])
                  && list == XnameRows(from, missing)
      {
        MissingXnamesNext(t, xnames, k);
        XnameRowsNext(from, missing, xnames[k]);
        assert xnames[k] in xnames;
        if xnames[k] !in known {
          var id := Generate();
          var row := Node(id, "", xnames[k], 0);
          assert row == Node(from + |missing|, "", xnames[k], 0);
          missing := missing + [xnames[k]];
          list := list + [row];
        }
      }
      assert xnames[..|xnames|] == xnames;
    }

    /** New rows store the MAC in lower case. */
    method NewNodesByMac(macs: seq<string>, known: map<string, Node>, ghost t: Tables) returns (list: seq<Node>)
      requires forall m | m in macs :: Lower(m) in known <==> KnownMac(t, m)
      modifies `nextId
      ensures nextId == old(nextId) + |list|
      ensures var m := MissingMacs(t, macs);
              |list| == |m| && forall i | 0 <= i < |m| :: list[i] == Node(old(nextId) + i, Lower(m[i]), "", 0)
    {
      hide MissingMacs, KnownMac;
      list := [];
      ghost var missing := [];
      for k := 0 to |macs|
        invariant nextId == old(nextId) + |list|
        invariant missing == MissingMacs(t, macs[..k]) && |list| == |missing|
        invariant forall i | 0 <= i < |missing| :: list[i] == Node(old(nextId) + i, Lower(missing[i]), "", 0)
      {
        MissingMacsNext(t, macs, k);
        assert macs[k] in macs;
        if Lower(macs[k]) !in known {
          var id := Generate();
          missing := missing + [macs[k]];
          list := list + [Node(id, Lower(macs[k]), "", 0)];
        }
      }
      assert macs[..|macs|] == macs;
    }

    method NewNodesByNid(nids: seq<int>, known: map<int, Node>, ghost t: Tables) returns (list: seq<Node>)
      requires forall n | n in nids :: n in known <==> KnownNid(t, n)
      modifies `nextId
      ensures nextId == old(nextId) + |list|
      ensures var m := MissingNids(t, nids);
              |list| == |m| && forall i | 0 <= i < |m| :: list[i] == Node(old(nextId) + i, "", "", m[i])
    {
      hide MissingNids, KnownNid;
      list := [];
      ghost var missing := [];
      for k := 0 to |nids|
        invariant nextId == old(nextId) + |list|
        invariant missing == MissingNids(t, nids[..k]) && |list| == |missing|
        invariant forall i | 0 <= i < |missing| :: list[i] == Node(old(nextId) + i, "", "", missing[i])
      {
        var n := nids[k];
        MissingNidsNext(t, nids, k);
        assert n in nids;
        if n !in known {
          var id := Generate();
          missing := missing + [n];
          list := list + [Node(id, "", "", n)];
        }
      }
      assert nids[..|nids|] == nids;
    }

    /** The node rows a request asks for and does not find, by the first kind of
        selector it uses. */
    method NodesToAdd(sel: Selector) returns (list: seq<Node>)
      requires IdsFresh() && KeyedById(State())
      modifies `nextId
      ensures IdsFresh() && nextId >= old(nextId) && NumberedBetween(list, old(nextId), nextId)
      ensures Numbered(Wanted(State(), sel), list)
    {
      hide MissingMacs, MissingXnames, MissingNids, KnownMac, KnownXname, KnownNid;
      var existing := GetNodesByItems(sel);
      ExistingAreKnown(State(), sel, existing);
      if sel.xnames != [] {
        var known := NodesByXname(existing);
        list := NewNodesByXname(sel.xnames, known, State());
      } else if sel.macs != [] {
        var known := NodesByMac(existing);
        list := NewNodesByMac(sel.macs, known, State());
      } else {
        var known := NodesByNid(existing);
        list := NewNodesByNid(sel.nids, known, State());
      }
    }

    /** Add nodes that do not exist yet, all with the requested configuration;
        the result maps each new group to its config. */
    method Add(bp: BootParams) returns (o: Outcome, result: map<Id, Id>)
      requires Valid()
      modifies this
      ensures Valid() && old(history) <= history
      ensures AddStep(old(State()), bp, State(), o)
      ensures result.Keys == groups.Keys - old(groups).Keys
      ensures forall g | g in result :: result[g] == groups[g].configId
      ensures forall i | |old(history)| <= i < |history| :: KeepsAll(old(State()), history[i])
    {
      ghost var t0 := State();
      var list := NodesToAdd(bp.sel);
      if list == [] { return Refused(Duplicate), map[]; }
      o, result := AddBootConfigByNode(list, bp.config);
      HistoryKeepsAll(t0, history, |old(history)|);
    }

    // -------------------------------------------------------- delete statements

    method DeleteNodesByItems(sel: Selector) returns (list: seq<Node>)
      requires KeyedById(State()) && !sel.Everything()
      requires Recorded()
      modifies `nodes, `history
      ensures Recorded()
      ensures nodes == old(nodes) - SelectedIds(old(State()), sel)
      ensures forall n :: n in list <==> n.id in old(nodes) && old(nodes)[n.id] == n && Selects(sel, n)
      ensures history == old(history) + [State()]
    {
      list := GetNodesByItems(sel);
      ghost var before := State();
      nodes := nodes - SelectedIds(State(), sel);
      Record(before);
    }

    method DeleteBootGroupAssignmentsByNodeId(ids: seq<Id>) returns (list: seq<Assignment>)
      requires ids != []
      requires Recorded()
      modifies `assignments, `history
      ensures Recorded()
      ensures assignments == Without(old(assignments), IdSet(ids))
      ensures forall a :: a in list <==> a in old(assignments) && a.node in ids
      ensures history == old(history) + [State()]
    {
      var rows := assignments;
      list := [];
      var kept := [];
      var gone := IdSet(ids);
      for i := 0 to |rows|
        invariant Recorded()
        invariant assignments == rows && history == old(history)
        invariant kept == Without(rows[..i], gone)
        invariant forall a :: a in list <==> a in rows[..i] && a.node in gone
      {
        var a := rows[i];
        WithoutNext(rows, i, gone);
        TakeNext(rows, i);
        if a.node in gone { list := list + [a]; } else { kept := kept + [a]; }
      }
      assert rows[..|rows|] == rows;
      ghost var before := State();
      assignments := kept;
      Record(before);
    }

    method DeleteBootGroupAssignmentsByGroupId(ids: seq<Id>) returns (list: seq<Assignment>)
      requires DistinctNodes(assignments)
      requires Recorded()
      modifies `assignments, `history
      ensures Recorded()
      ensures forall a :: a in list <==> a in old(assignments) && a.group in IdsIn(ids)
      ensures assignments == Without(old(assignments), NodesOfGroups(old(State()), IdsIn(ids)))
      ensures history == old(history) + [State()]
    {
      var rows := assignments;
      list := [];
      var kept := [];
      ghost var gone := NodesOfGroups(State(), IdsIn(ids));
      GoneWithGroup(State(), IdsIn(ids));
      for i := 0 to |rows|
        invariant Recorded()
        invariant assignments == rows && history == old(history)
        invariant kept == Without(rows[..i], gone)
        invariant forall a :: a in list <==> a in rows[..i] && a.group in IdsIn(ids)
      {
        WithoutNext(rows, i, gone);
        TakeNext(rows, i);
        if rows[i].group in IdsIn(ids) { list := list + [rows[i]]; } else { kept := kept + [rows[i]]; }
      }
      assert rows[..|rows|] == rows;
      ghost var before := State();
      assignments := kept;
      Record(before);
    }

    method DeleteBootGroupsById(ids: seq<Id>) returns (list: seq<BootGroup>)
      requires ids != [] && KeyedById(State())
      requires Recorded()
      modifies `groups, `history
      ensures Recorded()
      ensures groups == old(groups) - IdSet(ids)
      ensures forall bg :: bg in list <==> bg.id in old(groups) && old(groups)[bg.id] == bg && bg.id in ids
      ensures history == old(history) + [State()]
    {
      list := [];
      var rest := groups.Keys;
      while rest != {}
        invariant Recorded()
        invariant rest <= groups.Keys && groups == old(groups) && history == old(history)
        invariant forall bg :: bg in list <==> bg.id in groups && bg.id !in rest && groups[bg.id] == bg && bg.id in ids
        decreases rest
      {
        var g :| g in rest;
        rest := rest - {g};
        if g in ids { list := list + [groups[g]]; }
      }
      ghost var before := State();
      groups := groups - IdSet(ids);
      Record(before);
    }

    method DeleteBootConfigsById(ids: seq<Id>) returns (list: seq<BootConfig>)
      requires ids != [] && KeyedById(State())
      requires Recorded()
      modifies `configs, `history
      ensures Recorded()
      ensures configs == old(configs) - IdSet(ids)
      ensures forall bc :: bc in list <==> bc.id in old(configs) && old(configs)[bc.id] == bc && bc.id in ids
      ensures history == old(history) + [State()]
    {
      list := [];
      var rest := configs.Keys;
      while rest != {}
        invariant Recorded()
        invariant rest <= configs.Keys && configs == old(configs) && history == old(history)
        invariant forall bc :: bc in list <==>
                    bc.id in configs && bc.id !in rest && configs[bc.id] == bc && bc.id in ids
        decreases rest
      {
        var k :| k in rest;
        rest := rest - {k};
        if k in ids { list := list + [configs[k]]; }
      }
      ghost var before := State();
      configs := configs - IdSet(ids);
      Record(before);
    }

    /** The nodes assigned to a group; a blank group id means every node. */
    method GetNodesByBootGroupId(g: Id) returns (list: seq<Node>)
      requires KeyedById(State()) && g != BLANK_ID
      ensures forall n :: n in list <==> n.id in nodes && nodes[n.id] == n && Assignment(g, n.id) in assignments
    {
      list := [];
      for i := 0 to |assignments|
        invariant forall n :: n in list <==>
                    n.id in nodes && nodes[n.id] == n && Assignment(g, n.id) in assignments[..i]
      {
        var a := assignments[i];
        assert assignments[..i + 1] == assignments[..i] + [a];
        if a.group == g && a.node in nodes { list := list + [nodes[a.node]]; }
      }
      assert assignments[..|assignments|] == assignments;
    }

    /** Of the groups that lost an assignment, those no node is left on. */
    method GroupsLeftEmpty(removed: seq<Assignment>) returns (ids: seq<Id>)
      requires KeyedById(State()) && forall a | a in removed :: a.group != BLANK_ID
      ensures forall g :: g in ids <==>
                (exists a :: a in removed && a.group == g)
                && !(exists b :: b in assignments && b.group == g && b.node in nodes)
    {
      var rest := set a | a in removed :: a.group;
      ghost var all := rest;
      ids := [];
      while rest != {}
        invariant rest <= all
        invariant forall g :: g in ids <==>
                    g in all && g !in rest && !(exists b :: b in assignments && b.group == g && b.node in nodes)
        decreases rest
      {
        var g :| g in rest;
        rest := rest - {g};
        var list := GetNodesByBootGroupId(g);
        assert forall b | b in assignments && b.group == g && b.node in nodes :: nodes[b.node] in list;
        if list == [] {
          ids := ids + [g];
        } else {
          assert list[0] in list && Assignment(g, list[0].id) in assignments;
        }
      }
    }

    // ------------------------------------------------------------------ Delete

    /** Delete the groups left empty, then their configs. */
    method DeleteGroupsAndConfigs(ids: seq<Id>) returns (bcList: seq<BootConfig>)
      requires KeyedById(State()) && (forall g | g in ids :: g in groups && groups[g].configId in configs)
      requires Recorded()
      modifies `groups, `configs, `history
      ensures Recorded()
      ensures groups == old(groups) - IdSet(ids)
      ensures configs == old(configs) - (set g | g in ids && g in old(groups) :: old(groups)[g].configId)
      ensures (set bc | bc in bcList :: bc.id) == set g | g in ids && g in old(groups) :: old(groups)[g].configId
      ensures ids == [] ==> history == old(history)
      ensures ids != [] ==> history == old(history) + [old(State()).(groups := groups), State()]
    {
      bcList := [];
      if ids != [] {
        var bgList := DeleteBootGroupsById(ids);
        var bcIds := [];
        for i := 0 to |bgList|
          invariant |bcIds| == i && forall j | 0 <= j < i :: bcIds[j] == bgList[j].configId
        {
          bcIds := bcIds + [bgList[i].configId];
        }
        assert ids[0] in ids && old(groups)[ids[0]] in bgList;
        ConfigIdsOf(old(groups), ids, bgList, bcIds);
        bcList := DeleteBootConfigsById(bcIds);
        assert forall k | k in bcIds :: old(configs)[k] in bcList;
      }
    }

    method DeleteNodesAndAssignments(sel: Selector) returns (nodeIds: seq<Id>, bgaList: seq<Assignment>)
      requires KeyedById(State()) && !sel.Everything()
      requires Recorded()
      modifies `nodes, `assignments, `history
      ensures Recorded()
      ensures IdSet(nodeIds) == SelectedIds(old(State()), sel)
      ensures nodes == old(nodes) - IdSet(nodeIds)
      ensures assignments == Without(old(assignments), IdSet(nodeIds))
      ensures forall a :: a in bgaList <==> a in old(assignments) && a.node in IdSet(nodeIds)
      ensures nodeIds == [] ==> history == old(history) + [State()]
      ensures nodeIds != [] ==> history == old(history) + [old(State()).(nodes := nodes), State()]
    {
      var nodeList := DeleteNodesByItems(sel);
      ghost var s1 := State();
      nodeIds := NodeIds(nodeList);
      SelectedNodeIds(old(State()), sel, nodeList);
      if nodeIds == [] {
        assert IdSet(nodeIds) == {};
        WithoutNone(assignments, {});
        bgaList := [];
      } else {
        bgaList := DeleteBootGroupAssignmentsByNodeId(nodeIds);
        assert history == old(history) + [s1] + [State()];
      }
    }

    method EmptiedGroups(bgaList: seq<Assignment>, ghost t0: Tables, ghost ids: set<Id>) returns (groupIds: seq<Id>)
      requires JoinsOk(t0) && KeyedById(State())
      requires State() == t0.(nodes := t0.nodes - ids, assignments := Without(t0.assignments, ids))
      requires forall a :: a in bgaList <==> a in t0.assignments && a.node in ids
      ensures IdSet(groupIds) == Emptied(t0, ids)
      ensures forall g | g in groupIds :: g in groups && groups[g].configId in configs
    {
      groupIds := GroupsLeftEmpty(bgaList);
      LeftEmptyIsEmptied(t0, ids, bgaList, groupIds);
    }

    /** Delete the groups that lost their last node, with their configs. */
    method DeleteEmptied(bgaList: seq<Assignment>, ghost t0: Tables, ghost ids: set<Id>)
      returns (bcList: seq<BootConfig>, ghost stages: seq<Tables>)
      requires JoinsOk(t0) && KeyedById(State())
      requires State() == t0.(nodes := t0.nodes - ids, assignments := Without(t0.assignments, ids))
      requires forall a :: a in bgaList <==> a in t0.assignments && a.node in ids
      requires Recorded()
      modifies `groups, `configs, `history
      ensures Recorded()
      ensures State() == Removed(t0, ids, Emptied(t0, ids))
      ensures (set bc | bc in bcList :: bc.id) == old(configs).Keys - configs.Keys
      ensures history == old(history) + stages
      ensures forall s | s in stages :: s == State() || s == State().(configs := old(configs))
    {
      var groupIds := EmptiedGroups(bgaList, t0, ids);
      bcList := DeleteGroupsAndConfigs(groupIds);
      DeleteFinished(t0, ids, groupIds, State());
      stages := if groupIds == [] then [] else [State().(configs := old(configs)), State()];
    }

    /** The statements of a delete by node, in order: nodes, assignments, and
        then groups and configs when a group was left empty. */
    method DeleteSelected(sel: Selector)
      returns (nodeIds: seq<Id>, bcList: seq<BootConfig>, ghost stages: seq<Tables>)
      requires JoinsOk(State()) && !sel.Everything()
      requires Recorded()
      modifies `nodes, `assignments, `groups, `configs, `history
      ensures Recorded()
      ensures State() == DeletedNodes(old(State()), sel)
      ensures IdSet(nodeIds) == SelectedIds(old(State()), sel)
      ensures (set bc | bc in bcList :: bc.id) == old(configs).Keys - configs.Keys
      ensures history == old(history) + stages
      ensures forall s | s in stages :: DeleteStage(old(State()), State(), s)
    {
      ghost var t0 := State();
      bcList := [];
      var bgaList;
      nodeIds, bgaList := DeleteNodesAndAssignments(sel);
      ghost var s1, s2 := t0.(nodes := nodes), State();
      if nodeIds == [] {
        assert IdSet(nodeIds) == {};
        NothingDeleted(t0, sel);
        stages := [s2];
        return;
      }
      ghost var rest;
      bcList, rest := DeleteEmptied(bgaList, t0, IdSet(nodeIds));
      stages := [s1, s2] + rest;
    }

    /** Delete the selected nodes with their assignments, and the groups and
        configs that lose their last node by it. */
    method DeleteNodesWithBootConfigs(sel: Selector)
      returns (o: Outcome, nodeIds: seq<Id>, bcList: seq<BootConfig>, ghost stages: seq<Tables>)
      requires Valid() && !sel.Everything()
      modifies this
      ensures Valid()
      ensures State() == DeletedNodes(old(State()), sel)
      ensures o == if SelectedIds(old(State()), sel) == {} then Refused(NothingSelected) else Done
      ensures IdSet(nodeIds) == SelectedIds(old(State()), sel)
      ensures (set bc | bc in bcList :: bc.id) == old(configs).Keys - configs.Keys
      ensures history == old(history) + stages
      ensures forall s | s in stages :: KeepsOthers(old(State()), SelectedIds(old(State()), sel), s)
    {
      ghost var t0 := State();
      WellFormedJoins(t0);
      nodeIds, bcList, stages := DeleteSelected(sel);
      DeleteAfter(t0, sel, stages);
      assert WellFormed(State()) && IdsFresh();
      if nodeIds == [] {
        assert IdSet(nodeIds) == {};
        o := Refused(NothingSelected);
      } else {
        assert nodeIds[0] in IdSet(nodeIds);
        o := Done;
      }
    }

    method DeleteConfigsMatching(items: Config) returns (ids: seq<Id>)
      requires KeyedById(State())
      requires Recorded()
      modifies `configs, `history
      ensures Recorded()
      ensures forall k :: k in ids <==> k in old(configs) && MatchesItems(items, old(configs)[k].config)
      ensures configs == old(configs) - IdSet(ids)
      ensures history == old(history) + [State()]
    {
      ids := [];
      var rest := configs.Keys;
      while rest != {}
        invariant Recorded()
        invariant rest <= configs.Keys && configs == old(configs) && history == old(history)
        invariant forall k :: k in ids <==> k in configs && k !in rest && MatchesItems(items, configs[k].config)
        decreases rest
      {
        var k :| k in rest;
        rest := rest - {k};
        if MatchesItems(items, configs[k].config) { ids := ids + [k]; }
      }
      ghost var before := State();
      configs := configs - IdSet(ids);
      Record(before);
    }

    method DeleteGroupsByConfigId(configIds: seq<Id>) returns (ids: seq<Id>)
      requires KeyedById(State())
      requires Recorded()
      modifies `groups, `history
      ensures Recorded()
      ensures forall g :: g in ids <==> g in old(groups) && old(groups)[g].configId in IdsIn(configIds)
      ensures groups == old(groups) - IdSet(ids)
      ensures history == old(history) + [State()]
    {
      ids := [];
      var rest := groups.Keys;
      while rest != {}
        invariant Recorded()
        invariant rest <= groups.Keys && groups == old(groups) && history == old(history)
        invariant forall g :: g in ids <==> g in groups && g !in rest && groups[g].configId in IdsIn(configIds)
        decreases rest
      {
        var g :| g in rest;
        rest := rest - {g};
        if groups[g].configId in IdsIn(configIds) { ids := ids + [g]; }
      }
      ghost var before := State();
      groups := groups - IdSet(ids);
      Record(before);
    }

    method DeleteNodesById(ids: seq<Id>) returns (list: seq<Node>)
      requires KeyedById(State())
      requires Recorded()
      modifies `nodes, `history
      ensures Recorded()
      ensures forall n :: n in list <==> n.id in old(nodes) && old(nodes)[n.id] == n && n.id in IdsIn(ids)
      ensures nodes == old(nodes) - IdsIn(ids)
      ensures history == old(history) + [State()]
    {
      list := [];
      var rest := nodes.Keys;
      while rest != {}
        invariant Recorded()
        invariant rest <= nodes.Keys && nodes == old(nodes) && history == old(history)
        invariant forall n :: n in list <==> n.id in nodes && n.id !in rest && nodes[n.id] == n && n.id in IdsIn(ids)
        decreases rest
      {
        var id :| id in rest;
        rest := rest - {id};
        if id in IdsIn(ids) { list := list + [nodes[id]]; }
      }
      ghost var before := State();
      nodes := nodes - IdsIn(ids);
      Record(before);
    }

    method AssignedNodes(list: seq<Assignment>) returns (ids: seq<Id>)
      ensures |ids| == |list| && forall i | 0 <= i < |list| :: ids[i] == list[i].node
    {
      ids := [];
      for i := 0 to |list|
        invariant |ids| == i && forall j | 0 <= j < i :: ids[j] == list[j].node
      {
        ids := ids + [list[i].node];
      }
    }

    method DeleteMatchingGroups(items: Config) returns (configIds: seq<Id>, groupIds: seq<Id>)
      requires Valid()
      modifies `groups, `configs, `history
      ensures Recorded()
      ensures State() == old(State()).(configs := configs, groups := groups)
      ensures configs == DeletedItems(old(State()), items).configs && groups == DeletedItems(old(State()), items).groups
      ensures IdSet(configIds) == old(configs).Keys - configs.Keys
      ensures IdSet(groupIds) == GroupsWithItems(old(State()), items)
      ensures history == old(history) + ItemsStages(old(State()), items)[..2]
    {
      ghost var t0, u := State(), DeletedItems(State(), items);
      configIds := DeleteConfigsMatching(items);
      ghost var s1 := State();
      groupIds := DeleteGroupsByConfigId(configIds);
      MatchingGroups(t0, items, configIds, groupIds);
      assert s1 == t0.(configs := u.configs);
      assert history == old(history) + [s1, State()];
    }

    /** The statements of a delete by configuration, in order: configs, groups,
        assignments, nodes. */
    method DeleteMatching(items: Config) returns (nodeList: seq<Node>, configIds: seq<Id>)
      requires Valid()
      modifies `nodes, `assignments, `groups, `configs, `history
      ensures Recorded()
      ensures State() == DeletedItems(old(State()), items)
      ensures forall n :: n in nodeList <==> n.id in old(nodes) && old(nodes)[n.id] == n && n.id !in nodes
      ensures IdSet(configIds) == old(configs).Keys - configs.Keys
      ensures history == old(history) + ItemsStages(old(State()), items)
    {
      hide MatchesItems, GroupsWithItems, GroupOk, HasGroup, GroupsOk;
      ghost var t0, stages := State(), ItemsStages(State(), items);
      var groupIds;
      configIds, groupIds := DeleteMatchingGroups(items);
      DeletedItemsKeyed(t0, items);
      assert KeyedById(State());
      var bgaList := DeleteBootGroupAssignmentsByGroupId(groupIds);
      var nodeIds := AssignedNodes(bgaList);
      MatchingNodes(t0, items, groupIds, bgaList, nodeIds);
      assert State() == stages[2];
      nodeList := DeleteNodesById(nodeIds);
      assert State() == stages[3];
      assert history == old(history) + stages[..2] + [stages[2]] + [stages[3]];
    }

    method ConfigIds(list: seq<BootConfig>) returns (ids: seq<Id>)
      ensures IdSet(ids) == set bc | bc in list :: bc.id
    {
      ids := [];
      for i := 0 to |list|
        invariant |ids| == i && forall j | 0 <= j < i :: ids[j] == list[j].id
      {
        ids := ids + [list[i].id];
      }
      forall bc | bc in list ensures bc.id in ids {
        var i :| 0 <= i < |list| && list[i] == bc;
        assert ids[i] == bc.id;
      }
    }

    /** Delete by the first kind of selector, reporting the deleted ids; the MAC
        and NID branches report each of them twice. */
    method DeleteByNode(bp: BootParams)
      returns (o: Outcome, nodesDeleted: seq<Id>, bcsDeleted: seq<Id>, ghost stages: seq<Tables>)
      requires Valid() && !bp.sel.Everything()
      modifies this
      ensures Valid() && DeleteStep(old(State()), bp, State(), o)
      ensures IdSet(nodesDeleted) == old(nodes).Keys - nodes.Keys
      ensures IdSet(bcsDeleted) == old(configs).Keys - configs.Keys
      ensures history == old(history) + stages
      ensures forall s | s in stages :: KeepsOthers(old(State()), old(nodes).Keys - nodes.Keys, s)
    {
      var bcList;
      ghost var t0 := State();
      o, nodesDeleted, bcList, stages := DeleteNodesWithBootConfigs(FirstKind(bp.sel));
      bcsDeleted := ConfigIds(bcList);
      assert IdSet(nodesDeleted) == old(nodes).Keys - nodes.Keys;
      if SelectedIds(t0, FirstKind(bp.sel)) == {} { NothingDeleted(t0, FirstKind(bp.sel)); }
      if bp.sel.xnames == [] && o == Done {
        ReportedTwice(nodesDeleted);
        ReportedTwice(bcsDeleted);
        nodesDeleted := nodesDeleted + nodesDeleted;
        bcsDeleted := bcsDeleted + bcsDeleted;
      }
    }

    /** Delete nodes with everything only they need, or everything that has a
        given configuration. */
    method Delete(bp: BootParams) returns (o: Outcome, nodesDeleted: seq<Id>, bcsDeleted: seq<Id>)
      requires Valid()
      modifies this
      ensures Valid() && DeleteStep(old(State()), bp, State(), o)
      ensures IdSet(nodesDeleted) == old(nodes).Keys - nodes.Keys
      ensures IdSet(bcsDeleted) == old(configs).Keys - configs.Keys
      ensures old(history) <= history
      ensures forall i | |old(history)| <= i < |history| ::
                KeepsOthers(old(State()), old(nodes).Keys - nodes.Keys, history[i])
    {
      ghost var t0 := State();
      if !bp.sel.Everything() {
        ghost var stages;
        o, nodesDeleted, bcsDeleted, stages := DeleteByNode(bp);
        assert forall i | |old(history)| <= i < |history| :: history[i] in stages;
      } else if !bp.config.Blank() {
        var nodeList;
        nodeList, bcsDeleted := DeleteMatching(bp.config);
        nodesDeleted := NodeIds(nodeList);
        o := Done;
        DeletedItemsAfter(t0, bp.config);
        GoneIds(t0.nodes, nodes, nodeList);
        assert forall i | |old(history)| <= i < |history| :: history[i] in ItemsStages(t0, bp.config);
      } else {
        return Done, [], [];
      }
    }

    // ------------------------------------------------------------------ Update

    method UpdateNodeAssignment(nodeIds: seq<Id>, g: Id)
      requires nodeIds != [] && g != BLANK_ID
      requires Recorded()
      modifies `assignments, `history
      ensures Recorded()
      ensures assignments == AssignedTo(old(assignments), IdSet(nodeIds), g)
      ensures history == old(history) + [State()]
    {
      ghost var before := State();
      assignments := AssignedTo(assignments, IdSet(nodeIds), g);
      Record(before);
    }

    /** The two delete statements of an update, by config id. */
    method DeleteConfigsWithGroups(bcIds: seq<Id>)
      requires Recorded()
      modifies `groups, `configs, `history
      ensures Recorded()
      ensures configs == old(configs) - (set g | g in old(groups) && old(groups)[g].configId in IdsIn(bcIds) ::
                old(groups)[g].configId)
      ensures groups == old(groups) - (set g | g in old(groups) && old(groups)[g].configId in IdsIn(bcIds))
      ensures history == old(history) + [old(State()).(configs := configs), State()]
    {
      ghost var before := State();
      configs := configs - (set g | g in groups && groups[g].configId in IdsIn(bcIds) :: groups[g].configId);
      Record(before);
      ghost var s1 := State();
      groups := groups - (set g | g in groups && groups[g].configId in IdsIn(bcIds));
      Record(s1);
      assert history == old(history) + [s1] + [State()];
    }

    method GetNodesWithConfigs(sel: Selector) returns (m: map<Node, Bgbc>)
      requires JoinsOk(State()) && (forall id | id in nodes :: Assigned(State(), id))
      ensures forall n :: n in m <==> SelectsRow(State(), sel, n)
      ensures forall n | n in m ::
                Assignment(m[n].bg.id, n.id) in assignments && m[n] == BgbcAt(State(), m[n].bg.id)
    {
      m := map[];
      for i := 0 to |assignments|
        invariant forall n | n in m ::
                    SelectsRow(State(), sel, n) && Assignment(m[n].bg.id, n.id) in assignments
                    && m[n] == BgbcAt(State(), m[n].bg.id)
        invariant forall a | a in assignments[..i] && SelectsId(State(), sel, a.node) :: nodes[a.node] in m
      {
        var a := assignments[i];
        assert assignments[..i + 1] == assignments[..i] + [a];
        assert a in assignments;
        if Selects(sel, nodes[a.node]) { m := m[nodes[a.node] := BgbcAt(State(), a.group)]; }
      }
      assert assignments[..|assignments|] == assignments;
      forall n | SelectsRow(State(), sel, n) ensures n in m {
        assert Assigned(State(), n.id);
        var g :| Assignment(g, n.id) in assignments;
      }
    }

    method KeysToIds(m: map<Node, Bgbc>) returns (ids: seq<Id>)
      ensures IdSet(ids) == set n | n in m :: n.id
      ensures ids == [] <==> m == map[]
    {
      ids := [];
      var rest := m.Keys;
      while rest != {}
        invariant rest <= m.Keys && (ids == [] <==> rest == m.Keys)
        invariant forall n | n in m && n !in rest :: n.id in ids
        invariant forall id | id in ids :: exists n :: n in m && n !in rest && n.id == id
        decreases rest
      {
        var n :| n in rest;
        rest := rest - {n};
        ids := ids + [n.id];
      }
    }

    method GroupsOfNodes(nodeIds: seq<Id>) returns (bgIds: seq<Id>)
      ensures IdSet(bgIds) == set a | a in assignments && a.node in IdSet(nodeIds) :: a.group
    {
      bgIds := [];
      for i := 0 to |assignments|
        invariant forall g :: g in bgIds <==> exists a :: a in assignments[..i] && a.node in nodeIds && a.group == g
      {
        assert assignments[..i + 1] == assignments[..i] + [assignments[i]];
        if assignments[i].node in nodeIds { bgIds := bgIds + [assignments[i].group]; }
      }
      assert assignments[..|assignments|] == assignments;
    }

    /** Every node, selected or not, of the groups the listed nodes are in. */
    method GetConfigsWithNodes(nodeIds: seq<Id>) returns (m: map<Bgbc, seq<Node>>)
      requires JoinsOk(State()) && nodeIds != []
      ensures forall k | k in m :: k.bg.id in groups && k == BgbcAt(State(), k.bg.id)
      ensures forall k | k in m :: NodesOf(State(), k.bg.id, m[k])
      ensures (set k | k in m :: k.bg.id) == set a | a in assignments && a.node in IdSet(nodeIds) :: a.group
    {
      var bgIds := GroupsOfNodes(nodeIds);
      m := map[];
      for i := 0 to |assignments|
        invariant forall k | k in m :: k.bg.id in groups && k.bg.id in bgIds && k == BgbcAt(State(), k.bg.id)
        invariant forall k | k in m ::
                    forall n :: n in m[k] <==>
                      n.id in nodes && nodes[n.id] == n && Assignment(k.bg.id, n.id) in assignments[..i]
        invariant forall a | a in assignments[..i] && a.group in bgIds :: BgbcAt(State(), a.group) in m
      {
        var a := assignments[i];
        assert assignments[..i + 1] == assignments[..i] + [a];
        assert a in assignments;
        if a.group in bgIds {
          var k := BgbcAt(State(), a.group);
          if k !in m { m := m[k := [nodes[a.node]]]; } else { m := m[k := m[k] + [nodes[a.node]]]; }
        }
      }
      assert assignments[..|assignments|] == assignments;
      GroupKeys(State(), IdSet(bgIds), m);
    }

    /** The stored configs that share a non-blank field with the patch, by
        content; of several groups with one content, the last row wins. */
    method SimilarConfigs(patch: Config) returns (similar: map<Config, BootGroup>)
      requires Valid()
      ensures SimilarOk(State(), patch, similar)
    {
      var bgs, bcs := GetBootConfigsByItems(patch);
      similar := map[];
      for i := 0 to |bgs|
        invariant forall c | c in similar :: similar[c].id in groups && groups[similar[c].id] == similar[c]
                    && similar[c].configId in configs && ConfigAt(State(), similar[c].id) == c
        invariant forall j | 0 <= j < i :: bcs[j].config in similar
      {
        similar := similar[bcs[i].config := bgs[i]];
      }
    }

    /** Append the selected ones of a group's nodes under one entry. */
    method AddSelected(m: map<Bgbc, seq<Node>>, k: Bgbc, nList: seq<Node>, nToBgbc: map<Node, Bgbc>)
      returns (m': map<Bgbc, seq<Node>>)
      requires k !in m && exists n :: n in nList && n in nToBgbc
      ensures k in m' && m' == m[k := m'[k]]
      ensures m'[k] != [] && forall n :: n in m'[k] <==> n in nList && n in nToBgbc
    {
      m' := m;
      for i := 0 to |nList|
        invariant m' == if k in m' then m[k := m'[k]] else m
        invariant k in m' ==> m'[k] != [] && forall n :: n in m'[k] <==> n in nList[..i] && n in nToBgbc
        invariant k !in m' ==> forall n | n in nList[..i] :: n !in nToBgbc
      {
        var n := nList[i];
        assert nList[..i + 1] == nList[..i] + [n];
        if n in nToBgbc {
          if k !in m' { m' := m'[k := [n]]; } else { m' := m'[k := m'[k] + [n]]; }
        }
      }
      assert nList[..|nList|] == nList;
    }

    /** Plan one touched group: overlay its config, look the result up among the
        similar ones, and note its selected nodes. */
    method PlanGroup(patch: Config, ncfg: Bgbc, nList: seq<Node>, nToBgbc: map<Node, Bgbc>,
                     similar: map<Config, BootGroup>, toAdd: map<Bgbc, seq<Node>>, toReuse: map<Bgbc, seq<Node>>,
                     ghost t: Tables, ghost sel: Selector, ghost target: map<Id, Bgbc>, ghost source: map<Bgbc, Id>,
                     ghost lo: Id)
      returns (toAdd': map<Bgbc, seq<Node>>, toReuse': map<Bgbc, seq<Node>>, ghost k: Bgbc)
      requires Plans(t, sel, patch, target, source, toAdd, toReuse, lo, nextId) && lo <= nextId
      requires GroupPlannable(t, sel, patch, ncfg, nList, nToBgbc, similar) && ncfg.bg.id !in target
      modifies `nextId
      ensures lo <= nextId && nextId > old(nextId)
      ensures Plans(t, sel, patch, target[ncfg.bg.id := k], source[k := ncfg.bg.id], toAdd', toReuse', lo, nextId)
    {
      ghost var hi := nextId;
      var c := Overlay(ncfg.bc.config, patch);
      toAdd', toReuse' := toAdd, toReuse;
      var bcId := Generate();
      var bgId := Generate();
      if c in similar && similar[c].name == NodesLabel(c) && similar[c].description == NodesLabel(c) {
        var key := Bgbc(similar[c], BootConfig(bcId, c));
        KeyIsNew(target, source, toAdd, toReuse, lo, hi, key);
        toReuse' := AddSelected(toReuse, key, nList, nToBgbc);
        k := key;
        ReuseGroup(t, sel, patch, ncfg, nList, nToBgbc, similar, target, source, toAdd, toReuse, lo, hi, nextId, k,
                   toReuse'[k]);
      } else {
        var key := Bgbc(BootGroup(bgId, bcId, NodesLabel(c), NodesLabel(c)), BootConfig(bcId, c));
        KeyIsNew(target, source, toAdd, toReuse, lo, hi, key);
        toAdd' := AddSelected(toAdd, key, nList, nToBgbc);
        k := key;
        InsertGroup(t, sel, patch, ncfg, nList, nToBgbc, similar, target, source, toAdd, toReuse, lo, hi, nextId, k,
                    toAdd'[k]);
      }
    }

    method NoneSelected(nList: seq<Node>, nToBgbc: map<Node, Bgbc>) returns (none: bool)
      ensures none <==> forall n | n in nList :: n !in nToBgbc
    {
      for i := 0 to |nList|
        invariant forall n | n in nList[..i] :: n !in nToBgbc
      {
        assert nList[..i + 1] == nList[..i] + [nList[i]];
        if nList[i] in nToBgbc { return false; }
      }
      assert nList[..|nList|] == nList;
      return true;
    }

    /** One round of the planning loop.  A group without selected nodes would be
        marked for deletion, but each one was found through a selected node, so
        none ever is. */
    method PlanNext(patch: Config, ncfg: Bgbc, nList: seq<Node>, nToBgbc: map<Node, Bgbc>,
                    similar: map<Config, BootGroup>, toDel: seq<Bgbc>,
                    toAdd: map<Bgbc, seq<Node>>, toReuse: map<Bgbc, seq<Node>>,
                    ghost t: Tables, ghost sel: Selector, ghost target: map<Id, Bgbc>, ghost source: map<Bgbc, Id>,
                    ghost lo: Id)
      returns (toDel': seq<Bgbc>, toAdd': map<Bgbc, seq<Node>>, toReuse': map<Bgbc, seq<Node>>,
               ghost target': map<Id, Bgbc>, ghost source': map<Bgbc, Id>)
      requires Plans(t, sel, patch, target, source, toAdd, toReuse, lo, nextId) && lo <= nextId
      requires GroupPlannable(t, sel, patch, ncfg, nList, nToBgbc, similar) && ncfg.bg.id !in target
      modifies `nextId
      ensures toDel' == toDel && lo <= nextId && target'.Keys == target.Keys + {ncfg.bg.id}
      ensures Plans(t, sel, patch, target', source', toAdd', toReuse', lo, nextId)
    {
      var none := NoneSelected(nList, nToBgbc);
      toDel' := if none then toDel + [ncfg] else toDel;
      ghost var k;
      toAdd', toReuse', k := PlanGroup(patch, ncfg, nList, nToBgbc, similar, toAdd, toReuse, t, sel, target, source,
                                       lo);
      target', source' := target[ncfg.bg.id := k], source[k := ncfg.bg.id];
    }

    /** Plan every touched group, in any order. */
    method PlanAll(patch: Config, bgbcToN: map<Bgbc, seq<Node>>, nToBgbc: map<Node, Bgbc>,
                   similar: map<Config, BootGroup>, ghost t: Tables, ghost sel: Selector)
      returns (toDel: seq<Bgbc>, toAdd: map<Bgbc, seq<Node>>, toReuse: map<Bgbc, seq<Node>>,
               ghost target: map<Id, Bgbc>, ghost source: map<Bgbc, Id>)
      requires forall k | k in bgbcToN :: GroupPlannable(t, sel, patch, k, bgbcToN[k], nToBgbc, similar)
      modifies `nextId
      ensures toDel == [] && nextId >= old(nextId)
      ensures target.Keys == set k | k in bgbcToN :: k.bg.id
      ensures Plans(t, sel, patch, target, source, toAdd, toReuse, old(nextId), nextId)
    {
      toDel, toAdd, toReuse, target, source := [], map[], map[], map[], map[];
      DistinctGroups(t, sel, patch, bgbcToN, nToBgbc, similar);
      NonePlanned(bgbcToN.Keys);
      ghost var lo := nextId;
      var rest := bgbcToN.Keys;
      while rest != {}
        invariant rest <= bgbcToN.Keys && toDel == [] && lo <= nextId
        invariant GroupsPlanned(bgbcToN.Keys, rest, target.Keys)
        invariant Plans(t, sel, patch, target, source, toAdd, toReuse, lo, nextId)
        decreases rest
      {
        var ncfg :| ncfg in rest;
        PlannedNext(bgbcToN.Keys, rest, target.Keys, ncfg);
        rest := rest - {ncfg};
        toDel, toAdd, toReuse, target, source :=
          PlanNext(patch, ncfg, bgbcToN[ncfg], nToBgbc, similar, toDel, toAdd, toReuse, t, sel, target, source, lo);
      }
    }

    method PlannedRows(toAdd: map<Bgbc, seq<Node>>)
      returns (bcList: seq<BootConfig>, bgList: seq<BootGroup>, ghost keys: seq<Bgbc>)
      ensures |bcList| == |bgList| == |keys|
      ensures forall i | 0 <= i < |keys| :: keys[i] in toAdd && bcList[i] == keys[i].bc && bgList[i] == keys[i].bg
      ensures forall i, j | 0 <= i < j < |keys| :: keys[i] != keys[j]
      ensures forall k | k in toAdd :: k in keys
      ensures forall k | k in keys :: k in toAdd
    {
      bcList, bgList, keys := [], [], [];
      var rest := toAdd.Keys;
      while rest != {}
        invariant rest <= toAdd.Keys && |bcList| == |bgList| == |keys|
        invariant forall i | 0 <= i < |keys| ::
                    keys[i] in toAdd && keys[i] !in rest && bcList[i] == keys[i].bc && bgList[i] == keys[i].bg
        invariant forall i, j | 0 <= i < j < |keys| :: keys[i] != keys[j]
        invariant forall k | k in toAdd && k !in rest :: k in keys
        decreases rest
      {
        var k :| k in rest;
        rest := rest - {k};
        bcList, bgList, keys := bcList + [k.bc], bgList + [k.bg], keys + [k];
      }
    }

    /** Insert the planned configs, then the planned groups. */
    method InsertPlanned(toAdd: map<Bgbc, seq<Node>>, ghost lo: Id)
      requires IdsFresh() && IdsBelow(State(), lo)
      requires forall k | k in toAdd :: FreshIds(k, lo, nextId)
      requires forall k, l | k in toAdd && l in toAdd && k != l :: k.bc.id != l.bc.id && k.bg.id != l.bg.id
      requires Recorded()
      modifies `groups, `configs, `history
      ensures Recorded()
      ensures IdsFresh() && Inserted(old(State()), toAdd, State())
      ensures State() == old(State()).(groups := groups, configs := configs)
      ensures old(history) <= history
      ensures forall i | |old(history)| <= i < |history| :: OnlyInserted(old(State()), history[i])
    {
      var bcList, bgList;
      ghost var keys, t := [], State();
      bcList, bgList, keys := PlannedRows(toAdd);
      AddBootConfigs(bcList);
      AddBootGroups(bgList);
      InsertedConfigs(t.configs, configs, keys, bcList);
      InsertedGroups(t.groups, groups, keys, bgList);
    }

    /** Point the listed nodes of every entry at its group, in any order. */
    method RepointAll(m: map<Bgbc, seq<Node>>, ghost t: Tables, ghost sel: Selector,
                      ghost target: map<Id, Bgbc>, ghost source: map<Bgbc, Id>, ghost done: set<Bgbc>)
      returns (updated: seq<Id>)
      requires KeyedById(t) && AssignmentsOk(t) && Inverse(target, source)
      requires assignments == Moved(t, sel, target, done)
      requires forall k | k in m :: k in source && k.bg.id != BLANK_ID && ListsGroup(t, sel, source[k], m[k])
      requires Recorded()
      modifies `assignments, `history
      ensures Recorded()
      ensures assignments == Moved(t, sel, target, done + m.Keys)
      ensures old(history) <= history
      ensures forall i | |old(history)| <= i < |history| :: MovedFrom(t, sel, target, old(State()), history[i])
      ensures IdSet(updated) == ListedIds(m)
    {
      hide Moved, AssignmentsOk, KeyedById, Inverse;
      updated := [];
      ghost var moved := done;
      var rest := m.Keys;
      assert done + {} == done;
      while rest != {}
        invariant Recorded()
        invariant rest <= m.Keys && moved == done + (m.Keys - rest)
        invariant assignments == Moved(t, sel, target, moved) && old(history) <= history
        invariant forall i | |old(history)| <= i < |history| :: MovedFrom(t, sel, target, old(State()), history[i])
        invariant forall id | id in updated :: exists k, n :: k in m && n in m[k] && n.id == id
        invariant forall k, n | k in m && k !in rest && n in m[k] :: n.id in updated
        decreases rest
      {
        var k :| k in rest;
        rest := rest - {k};
        var nodeIds := NodeIds(m[k]);
        NodeIdsSet(m[k]);
        MoveStep(t, sel, target, source, moved, k, m[k], IdSet(nodeIds));
        UpdateNodeAssignment(nodeIds, k.bg.id);
        moved := moved + {k};
        assert MovedFrom(t, sel, target, old(State()), State());
        updated := updated + nodeIds;
      }
      assert moved == done + m.Keys;
    }

    /** The selected nodes, and the groups they are in with all their nodes. */
    method ReadTouched(sel: Selector) returns (nToBgbc: map<Node, Bgbc>, bgbcToN: map<Bgbc, seq<Node>>)
      requires Valid()
      ensures forall n :: n in nToBgbc <==> SelectsRow(State(), sel, n)
      ensures nToBgbc == map[] <==> SelectedIds(State(), sel) == {}
      ensures forall k | k in bgbcToN :: k.bg.id in groups && groups[k.bg.id].configId in configs
                && k == BgbcAt(State(), k.bg.id) && NodesOf(State(), k.bg.id, bgbcToN[k])
      ensures nToBgbc != map[] ==> (set k | k in bgbcToN :: k.bg.id) == Touched(State(), sel)
    {
      WellFormedJoins(State());
      nToBgbc := GetNodesWithConfigs(sel);
      var nodeIds := KeysToIds(nToBgbc);
      SelectedKeys(State(), sel, nToBgbc);
      bgbcToN := map[];
      if nodeIds != [] {
        bgbcToN := GetConfigsWithNodes(nodeIds);
        TouchedKeys(State(), sel, IdSet(nodeIds), bgbcToN);
      }
    }

    /** The reading half of an update: find the selected nodes, their groups with
        all their nodes, and the similar configs, and plan.  No table changes. */
    method PrepareUpdate(bp: BootParams, ghost t: Tables)
      returns (found: bool, toDel: seq<Bgbc>, toAdd: map<Bgbc, seq<Node>>, toReuse: map<Bgbc, seq<Node>>,
               ghost target: map<Id, Bgbc>, ghost source: map<Bgbc, Id>)
      requires Valid() && !bp.config.Blank() && t == State()
      modifies `nextId
      ensures nextId >= old(nextId) && (found <==> SelectedIds(t, bp.sel) != {})
      ensures found ==> toDel == [] && target.Keys == Touched(t, bp.sel)
      ensures found ==> Plans(t, bp.sel, bp.config, target, source, toAdd, toReuse, old(nextId), nextId)
    {
      var nToBgbc, bgbcToN := ReadTouched(bp.sel);
      if nToBgbc == map[] { return false, [], map[], map[], map[], map[]; }
      found := true;
      var similar := SimilarConfigs(bp.config);
      forall k | k in bgbcToN
        ensures GroupPlannable(t, bp.sel, bp.config, k, bgbcToN[k], nToBgbc, similar)
      {
        assert k.bg.id in set l | l in bgbcToN :: l.bg.id;
        TouchedIsPlannable(t, bp.sel, bp.config, k, bgbcToN[k], nToBgbc, similar);
      }
      toDel, toAdd, toReuse, target, source := PlanAll(bp.config, bgbcToN, nToBgbc, similar, t, bp.sel);
    }

    method BcIds(list: seq<Bgbc>) returns (ids: seq<Id>)
      ensures |ids| == |list|
    {
      ids := [];
      for i := 0 to |list|
        invariant |ids| == i
      {
        ids := ids + [list[i].bc.id];
      }
    }

    /** The two delete statements, for the empty list the planning leaves: no id
        is blank, so they match nothing. */
    method DeletePlanned(toDel: seq<Bgbc>)
      requires JoinsOk(State()) && toDel == []
      requires Recorded()
      modifies `groups, `configs, `history
      ensures Recorded()
      ensures State() == old(State())
      ensures history == old(history) + [State(), State()]
    {
      var bcIds := BcIds(toDel);
      DeleteConfigsWithGroups(bcIds);
    }

    /** Both repointing loops: the nodes of new groups, then those of reused ones. */
    method RepointPlanned(toAdd: map<Bgbc, seq<Node>>, toReuse: map<Bgbc, seq<Node>>, ghost t: Tables,
                          ghost sel: Selector, ghost target: map<Id, Bgbc>, ghost source: map<Bgbc, Id>)
      returns (updated: seq<Id>)
      requires KeyedById(t) && AssignmentsOk(t) && Inverse(target, source) && source.Keys == toAdd.Keys + toReuse.Keys
      requires assignments == t.assignments
      requires forall k | k in toAdd :: k in source && k.bg.id != BLANK_ID && ListsGroup(t, sel, source[k], toAdd[k])
      requires forall k | k in toReuse ::
                 k in source && k.bg.id != BLANK_ID && ListsGroup(t, sel, source[k], toReuse[k])
      requires Recorded()
      modifies `assignments, `history
      ensures Recorded()
      ensures assignments == Moved(t, sel, target, source.Keys)
      ensures old(history) <= history
      ensures forall i | |old(history)| <= i < |history| :: MovedFrom(t, sel, target, old(State()), history[i])
      ensures IdSet(updated) == ListedIds(toAdd) + ListedIds(toReuse)
    {
      NothingMoved(t, sel, target);
      var added := RepointAll(toAdd, t, sel, target, source, {});
      assert {} + toAdd.Keys == toAdd.Keys;
      var reused := RepointAll(toReuse, t, sel, target, source, toAdd.Keys);
      updated := added + reused;
      assert IdSet(updated) == IdSet(added) + IdSet(reused);
    }

    /** The statements before any node moves: delete what the planning marked,
        which is nothing, and insert the planned pairs. */
    method WritePlanned(toDel: seq<Bgbc>, toAdd: map<Bgbc, seq<Node>>, ghost t: Tables, ghost lo: Id)
      returns (ghost stages: seq<Tables>)
      requires IdsFresh() && JoinsOk(t) && t == State() && toDel == [] && IdsBelow(t, lo)
      requires forall k | k in toAdd :: FreshIds(k, lo, nextId)
      requires forall k, l | k in toAdd && l in toAdd && k != l :: k.bc.id != l.bc.id && k.bg.id != l.bg.id
      requires Recorded()
      modifies `groups, `configs, `history
      ensures Recorded()
      ensures IdsFresh() && Inserted(t, toAdd, State()) && OnlyInserted(t, State())
      ensures history == old(history) + stages
      ensures forall h | h in stages :: OnlyInserted(t, h)
    {
      DeletePlanned(toDel);
      InsertPlanned(toAdd, lo);
      stages := history[|old(history)|..];
      assert stages[..2] == [t, t];
    }

    /** The writing half of an update, statement by statement. */
    method ExecuteUpdate(toDel: seq<Bgbc>, toAdd: map<Bgbc, seq<Node>>, toReuse: map<Bgbc, seq<Node>>, ghost t: Tables,
                         ghost sel: Selector, ghost target: map<Id, Bgbc>, ghost source: map<Bgbc, Id>, ghost lo: Id)
      returns (updated: seq<Id>, ghost stages: seq<Tables>)
      requires IdsFresh() && JoinsOk(t) && AssignmentsOk(t) && t == State() && toDel == [] && IdsBelow(t, lo)
      requires Inverse(target, source) && source.Keys == toAdd.Keys + toReuse.Keys
      requires forall k | k in toAdd :: FreshIds(k, lo, nextId)
      requires forall k, l | k in toAdd && l in toAdd && k != l :: k.bc.id != l.bc.id && k.bg.id != l.bg.id
      requires forall k | k in toAdd :: k in source && k.bg.id != BLANK_ID && ListsGroup(t, sel, source[k], toAdd[k])
      requires forall k | k in toReuse ::
                 k in source && k.bg.id != BLANK_ID && ListsGroup(t, sel, source[k], toReuse[k])
      requires Recorded()
      modifies `groups, `configs, `assignments, `history
      ensures Recorded()
      ensures IdsFresh() && Inserted(t, toAdd, State())
      ensures nodes == t.nodes && assignments == Moved(t, sel, target, source.Keys)
      ensures history == old(history) + stages
      ensures forall h | h in stages :: UpdateStage(t, sel, target, toAdd, h)
      ensures IdSet(updated) == ListedIds(toAdd) + ListedIds(toReuse)
    {
      hide UpdateStage, MovedFrom, OnlyInserted, Inserted, ListsGroup, AssignmentsOk, KeyedById, FreshIds, IdsBelow;
      hide Recorded, Consecutive, IdsFresh, Moved, Inverse, ListedIds, IdSet, GroupsOk, GroupOk;
      ghost var written := WritePlanned(toDel, toAdd, t, lo);
      ghost var s, before := State(), history;
      updated := RepointPlanned(toAdd, toReuse, t, sel, target, source);
      ghost var moves := history[|before|..];
      stages := written + moves;
      StagesBehind(old(history), written, history);
      WrittenStages(t, sel, target, toAdd, s, written, moves);
      InsertedStays(t, toAdd, s, State());
    }

    /** Overlay the non-blank fields of the request on the configurations of the
        selected nodes; refused, with every table untouched, when a selector has
        no node, when the request is blank, and when there is no node at all. */
    method Update(bp: BootParams) returns (o: Outcome, nodesUpdated: seq<Id>)
      requires Valid()
      modifies this
      ensures Valid() && old(history) <= history
      ensures UpdateStep(old(State()), bp, State(), o)
      ensures IdSet(nodesUpdated) == if o == Done then SelectedIds(old(State()), bp.sel) else {}
      ensures forall i | |old(history)| <= i < |history| :: OldOrNew(old(State()), bp.sel, bp.config, history[i])
    {
      hide OldOrNew, Updates, Missing, GroupsOk, AssignmentsOk;
      ghost var t := State();
      nodesUpdated := [];
      var _, missing := CheckNodeExistence(bp.sel);
      if !missing.Everything() { return Refused(NotExists(missing)), nodesUpdated; }
      if bp.config.Blank() { return Refused(BlankPatch), nodesUpdated; }
      ghost var target, source, lo, stages := map[], map[], nextId, [];
      var found, toDel, toAdd, toReuse;
      found, toDel, toAdd, toReuse, target, source := PrepareUpdate(bp, t);
      if !found { return Refused(NoNodeIds), nodesUpdated; }
      WellFormedJoins(t);
      PlannedEntries(t, bp.sel, bp.config, target, source, toAdd, toReuse, lo, nextId);
      nodesUpdated, stages := ExecuteUpdate(toDel, toAdd, toReuse, t, bp.sel, target, source, lo);
      UpdateExecuted(t, bp.sel, bp.config, target, source, toAdd, toReuse, lo, nextId, State(), stages);
      o := Done;
    }

    /** The non-blank identities of the listed nodes, as selectors. */
    method IdentitiesOf(list: seq<Node>, ghost sel: Selector) returns (upd: Selector)
      requires forall n :: n in list <==> n.id in nodes && nodes[n.id] == n && Selects(sel, n)
      requires KeyedById(State())
      ensures Rebuilt(State(), sel, upd)
    {
      var macs, xnames, nids := [], [], [];
      for i := 0 to |list|
        invariant forall m :: m in macs <==> m != "" && exists n :: n in list[..i] && n.mac == m
        invariant forall x :: x in xnames <==> x != "" && exists n :: n in list[..i] && n.xname == x
        invariant forall k :: k in nids <==> k != 0 && exists n :: n in list[..i] && n.nid == k
      {
        assert list[..i + 1] == list[..i] + [list[i]];
        if list[i].mac != "" { macs := macs + [list[i].mac]; }
        if list[i].xname != "" { xnames := xnames + [list[i].xname]; }
        if list[i].nid != 0 { nids := nids + [list[i].nid]; }
      }
      assert list[..|list|] == list;
      upd := Selector(macs, xnames, nids);
      RebuiltFrom(State(), sel, list, upd);
    }

    /** The first half of Set. */
    method AddMissing(bp: BootParams, missing: Selector, ghost t: Tables)
      returns (o: Outcome, ghost stages: seq<Tables>)
      requires Valid() && t == State() && missing == Missing(t, bp.sel)
      modifies this
      ensures Valid() && MidSet(t, bp, State(), o) && history == old(history) + stages
      ensures forall s | s in stages :: OldOrHit(t, bp.sel, bp.config, s)
    {
      hide WellFormed, OldOrHit, AddStep, KeepsAll, Missing;
      o, stages := Done, [];
      if !missing.Everything() {
        var added;
        o, added := Add(BootParams(missing, bp.config));
        stages := history[|old(history)|..];
        KeptIsOldOrHit(t, bp.sel, bp.config, stages);
      }
    }

    /** The second half of Set; t are the tables before the first. */
    method UpdateFound(bp: BootParams, upd: Selector, ghost t: Tables) returns (o: Outcome, ghost stages: seq<Tables>)
      requires Valid() && WellFormed(t) && Rebuilt(t, bp.sel, upd) && SelectedIds(t, bp.sel) != {}
      requires MidSet(t, bp, State(), Done)
      modifies this
      ensures Valid() && UpdateStep(old(State()), BootParams(upd, bp.config), State(), o)
      ensures history == old(history) + stages
      ensures MacsLower(t) ==> forall s | s in stages :: OldOrHit(t, bp.sel, bp.config, s)
    {
      hide WellFormed, Rebuilt, MidSet, UpdateStep, OldOrNew, OldOrHit, MacsLower;
      ghost var mid := State();
      var updated;
      o, updated := Update(BootParams(upd, bp.config));
      stages := history[|old(history)|..];
      if MacsLower(t) { SetStagesSafe(t, bp, mid, upd, stages); }
    }

    /** What Set reads first: the selectors without a node, and the identities
        of the nodes there are. */
    method ReadForSet(bp: BootParams) returns (missing: Selector, upd: Selector, anyFound: bool)
      requires Valid()
      ensures missing == Missing(State(), bp.sel) && Rebuilt(State(), bp.sel, upd)
      ensures anyFound <==> SelectedIds(State(), bp.sel) != {}
    {
      var _, absent := CheckNodeExistence(bp.sel);
      missing := absent;
      var existing := GetNodesByItems(bp.sel);
      upd := IdentitiesOf(existing, bp.sel);
      NothingListed(State(), bp.sel, existing);
      anyFound := existing != [];
    }

    /** Both halves of Set. */
    method SetNodes(bp: BootParams) returns (o: Outcome, ghost stages: seq<Tables>)
      requires Valid() && !bp.config.Blank()
      modifies this
      ensures Valid() && history == old(history) + stages
      ensures SetStep(old(State()), bp, State(), o)
      ensures MacsLower(old(State())) ==> forall s | s in stages :: OldOrHit(old(State()), bp.sel, bp.config, s)
    {
      hide WellFormed, Rebuilt, UpdateStep, AddStep, OldOrHit, MacsLower, Missing, MidSet, SetStep, SelectedIds;
      ghost var t := State();
      var missing, upd, anyFound := ReadForSet(bp);
      o, stages := AddMissing(bp, missing, t);
      if o == Done && anyFound {
        ghost var mid, updates := State(), [];
        o, updates := UpdateFound(bp, upd, t);
        stages := stages + updates;
        HalvesAreSet(t, bp, mid, upd, Done, State(), o);
      } else {
        HalvesAreSet(t, bp, State(), upd, o, State(), o);
      }
    }

    /** Add the nodes that are missing, then update the ones that were there. */
    method Set(bp: BootParams) returns (o: Outcome)
      requires Valid()
      modifies this
      ensures Valid() && old(history) <= history
      ensures SetStep(old(State()), bp, State(), o)
      ensures MacsLower(old(State())) ==>
                forall i | |old(history)| <= i < |history| :: OldOrHit(old(State()), bp.sel, bp.config, history[i])
    {
      if bp.config.Blank() { return Refused(BlankPatch); }
      ghost var stages;
      o, stages := SetNodes(bp);
      assert forall i | |old(history)| <= i < |history| :: history[i] in stages;
    }
  }
}
