/** What the operations mean for the map from nodes to configurations, and what
    every run of them keeps. */
module StoreLaws {
  import opened Tables
  import opened StoreSpec

  // ------------------------------------------------------------------- Update

  /** The overlaid content of every touched group is where the plan leads. */
  lemma PlanLeads(t: Tables, sel: Selector, patch: Config, plan: map<Id, Id>, t': Tables, g: Id)
    requires WellFormed(t) && UpdatesBy(t, sel, patch, plan, t') && g in plan
    ensures g in t.groups && plan[g] in t'.groups && t'.groups[plan[g]].configId in t'.configs
    ensures ConfigAt(t', plan[g]) == Overlay(ConfigAt(t, g), patch)
  {}

  lemma UpdatedGroupOk(t: Tables, sel: Selector, patch: Config, plan: map<Id, Id>, t': Tables, g: Id)
    returns (h: Id)
    requires WellFormed(t) && UpdatesBy(t, sel, patch, plan, t') && g in t'.groups
    ensures t'.groups[g].id == g != BLANK_ID && GroupOk(t', t'.groups[g])
    ensures g !in t.groups ==>
              h in plan && h in t.groups && plan[h] == g && NewPair(t, t', g, Overlay(ConfigAt(t, h), patch))
  {
    h := g;
    if g in t.groups {
      assert GroupOk(t, t.groups[g]);
    } else {
      h :| h in plan && plan[h] == g;
      assert Target(t, Overlay(ConfigAt(t, h), patch), plan[h], t');
    }
  }

  lemma UpdatedGroupsApart(t: Tables, sel: Selector, patch: Config, plan: map<Id, Id>, t': Tables, g: Id, h: Id)
    requires WellFormed(t) && UpdatesBy(t, sel, patch, plan, t')
    requires g in t'.groups && h in t'.groups && g != h
    ensures t'.groups[g].configId != t'.groups[h].configId
  {
    var g0 := UpdatedGroupOk(t, sel, patch, plan, t', g);
    var h0 := UpdatedGroupOk(t, sel, patch, plan, t', h);
    if g in t.groups { assert GroupOk(t, t.groups[g]); }
    if h in t.groups { assert GroupOk(t, t.groups[h]); }
  }

  lemma UpdatedConfigOk(t: Tables, sel: Selector, patch: Config, plan: map<Id, Id>, t': Tables, k: Id)
    requires WellFormed(t) && UpdatesBy(t, sel, patch, plan, t') && k in t'.configs
    ensures t'.configs[k].id == k != BLANK_ID && t'.configs[k].config.kernel != "" && HasGroup(t', k)
  {
    hide PlanOk, AssignmentsOk;
    if k in t.configs {
      assert HasGroup(t, k);
    } else {
      var g :| g in t'.groups && g !in t.groups && t'.groups[g].configId == k;
      var h := UpdatedGroupOk(t, sel, patch, plan, t', g);
      assert GroupOk(t, t.groups[h]);
    }
  }

  lemma UpdateKeepsGroupsOk(t: Tables, sel: Selector, patch: Config, plan: map<Id, Id>, t': Tables)
    requires WellFormed(t) && UpdatesBy(t, sel, patch, plan, t')
    ensures KeyedById(t') && GroupsOk(t')
  {
    forall g | g in t'.groups
      ensures t'.groups[g].id == g != BLANK_ID && GroupOk(t', t'.groups[g])
    {
      var _ := UpdatedGroupOk(t, sel, patch, plan, t', g);
    }
    forall g, h | g in t'.groups && h in t'.groups && g != h
      ensures t'.groups[g].configId != t'.groups[h].configId
    {
      UpdatedGroupsApart(t, sel, patch, plan, t', g, h);
    }
    forall k | k in t'.configs
      ensures t'.configs[k].id == k != BLANK_ID && t'.configs[k].config.kernel != "" && HasGroup(t', k)
    {
      UpdatedConfigOk(t, sel, patch, plan, t', k);
    }
  }

  lemma UpdateKeepsAssignmentsOk(t: Tables, sel: Selector, patch: Config, plan: map<Id, Id>, t': Tables)
    requires WellFormed(t) && UpdatesBy(t, sel, patch, plan, t')
    ensures AssignmentsOk(t')
  {
    hide PlanOk, GroupsOk, ConfigAt;
    forall i | 0 <= i < |t'.assignments|
      ensures t'.assignments[i].node == t.assignments[i].node
      ensures t'.assignments[i].node in t'.nodes && t'.assignments[i].group in t'.groups
    {
      var a := t.assignments[i];
      assert a in t.assignments && Repointed(t, sel, plan, a, t'.assignments[i]);
      if SelectsId(t, sel, a.node) { PlanLeads(t, sel, patch, plan, t', a.group); }
    }
    forall id | id in t'.nodes ensures Assigned(t', id) {
      assert Assigned(t, id);
      var g :| Assignment(g, id) in t.assignments;
      var i :| 0 <= i < |t.assignments| && t.assignments[i] == Assignment(g, id);
      assert t'.assignments[i] == Assignment(t'.assignments[i].group, id);
    }
  }

  /** The patch applied to exactly the selected nodes. */
  ghost function OverlaidView(v: map<Node, Config>, sel: Selector, patch: Config): map<Node, Config> {
    map n | n in v :: if Selects(sel, n) then Overlay(v[n], patch) else v[n]
  }

  lemma UpdatedNode(t: Tables, sel: Selector, patch: Config, plan: map<Id, Id>, t': Tables, n: Node)
    requires WellFormed(t) && UpdatesBy(t, sel, patch, plan, t') && WellFormed(t') && n in View(t)
    ensures ResolvesTo(t', n, OverlaidView(View(t), sel, patch)[n])
  {
    hide PlanOk;
    var a := Assignment(GroupOf(t, n.id), n.id);
    var i :| 0 <= i < |t.assignments| && t.assignments[i] == a;
    var a' := t'.assignments[i];
    assert a' in t'.assignments && Repointed(t, sel, plan, a, a');
    assert GroupOk(t, t.groups[a.group]);
    if SelectsId(t, sel, n.id) { PlanLeads(t, sel, patch, plan, t', a.group); }
    OneResolves(t', n, a', OverlaidView(View(t), sel, patch)[n]);
  }

  lemma UpdatedView(t: Tables, sel: Selector, patch: Config, plan: map<Id, Id>, t': Tables)
    requires WellFormed(t) && UpdatesBy(t, sel, patch, plan, t') && WellFormed(t')
    ensures View(t') == OverlaidView(View(t), sel, patch)
  {
    var w := OverlaidView(View(t), sel, patch);
    forall n | n in w ensures ResolvesTo(t', n, w[n]) {
      UpdatedNode(t, sel, patch, plan, t', n);
    }
    ViewIs(t', w);
  }

  /** Update refines the map overlay: copy-on-write over shared groups is
      invisible in the map. */
  lemma UpdateRefinesOverlay(t: Tables, sel: Selector, patch: Config, t': Tables)
    requires WellFormed(t) && Updates(t, sel, patch, t')
    ensures WellFormed(t')
    ensures View(t') == OverlaidView(View(t), sel, patch)
  {
    var plan :| UpdatesBy(t, sel, patch, plan, t');
    UpdateKeepsGroupsOk(t, sel, patch, plan, t');
    UpdateKeepsAssignmentsOk(t, sel, patch, plan, t');
    UpdatedView(t, sel, patch, plan, t');
  }

  lemma StoredIn(t: Tables, t': Tables, g: Id)
    requires WellFormed(t) && Submap(t.groups, t'.groups) && Submap(t.configs, t'.configs) && g in t.groups
    ensures t'.groups[g].configId in t'.configs && ConfigAt(t', g) == ConfigAt(t, g)
    ensures Stored(t, ConfigAt(t, g))
  {}

  /** Update keeps the groups deduplicated exactly when the patch merges no two
      touched configs into one that is not stored yet. */
  lemma {:induction false} UpdateKeepsDeduplicatedIff(t: Tables, sel: Selector, patch: Config, t': Tables)
    requires WellFormed(t) && Deduplicated(t)
    requires Updates(t, sel, patch, t') && WellFormed(t')
    ensures Deduplicated(t') <==> !Collapses(t, sel, patch)
  {
    hide AssignmentsOk;
    var plan :| UpdatesBy(t, sel, patch, plan, t');
    if Collapses(t, sel, patch) {
      var g, h :| g in plan && h in plan && g != h && g in t.groups && h in t.groups
        && Overlay(ConfigAt(t, g), patch) == Overlay(ConfigAt(t, h), patch)
        && !Stored(t, Overlay(ConfigAt(t, g), patch));
      PlanLeads(t, sel, patch, plan, t', g);
      PlanLeads(t, sel, patch, plan, t', h);
      assert Target(t, Overlay(ConfigAt(t, g), patch), plan[g], t');
      assert plan[g] != plan[h];
    } else {
      forall p, q | p in t'.groups && q in t'.groups && p != q
        ensures ConfigAt(t', p) != ConfigAt(t', q)
      {
        UpdatedContentsApart(t, sel, patch, plan, t', p, q);
      }
    }
  }

  lemma UpdatedContentsApart(t: Tables, sel: Selector, patch: Config, plan: map<Id, Id>, t': Tables, p: Id, q: Id)
    requires WellFormed(t) && Deduplicated(t) && !Collapses(t, sel, patch)
    requires UpdatesBy(t, sel, patch, plan, t') && WellFormed(t')
    requires p in t'.groups && q in t'.groups && p != q
    ensures ConfigAt(t', p) != ConfigAt(t', q)
  {
    var g := UpdatedGroupOk(t, sel, patch, plan, t', p);
    var h := UpdatedGroupOk(t, sel, patch, plan, t', q);
    if p in t.groups { StoredIn(t, t', p); }
    if q in t.groups { StoredIn(t, t', q); }
    if p !in t.groups { assert Target(t, Overlay(ConfigAt(t, g), patch), plan[g], t'); }
    if q !in t.groups { assert Target(t, Overlay(ConfigAt(t, h), patch), plan[h], t'); }
  }

  lemma InjectiveImageSize(f: map<Id, Id>, s: set<Id>, image: set<Id>)
    requires s <= f.Keys
    requires forall x, y | x in s && y in s && x != y :: f[x] != f[y]
    requires image == set x | x in s :: f[x]
    ensures |image| == |s|
  {
    if s != {} {
      var x :| x in s;
      var rest := set y | y in s - {x} :: f[y];
      assert image == rest + {f[x]};
      InjectiveImageSize(f, s - {x}, rest);
    }
  }

  lemma DisjointSize(a: set<Id>, b: set<Id>, c: set<Id>)
    requires a !! b && (forall x :: x in c <==> x in a || x in b)
    ensures |c| == |a| + |b|
  {
    assert c == a + b;
  }

  /** The touched groups whose overlaid content no group holds yet. */
  ghost function MissingTargets(t: Tables, sel: Selector, patch: Config): set<Id>
    requires WellFormed(t)
  {
    set g | g in Touched(t, sel) && g in t.groups && !Stored(t, Overlay(ConfigAt(t, g), patch))
  }

  /** Update inserts exactly one group per touched group whose overlaid content
      is not stored yet, and deletes none. */
  lemma UpdateInsertsOnePairEach(t: Tables, sel: Selector, patch: Config, t': Tables)
    requires WellFormed(t) && Updates(t, sel, patch, t')
    ensures t.groups.Keys <= t'.groups.Keys && t.configs.Keys <= t'.configs.Keys
    ensures |t'.groups| == |t.groups|
              + |MissingTargets(t, sel, patch)|
  {
    var plan :| UpdatesBy(t, sel, patch, plan, t');
    UpdateInserts(t, sel, patch, plan, t');
  }

  lemma UpdateInserts(t: Tables, sel: Selector, patch: Config, plan: map<Id, Id>, t': Tables)
    requires WellFormed(t) && UpdatesBy(t, sel, patch, plan, t')
    ensures |t'.groups| == |t.groups| + |MissingTargets(t, sel, patch)|
  {
    var missing := MissingTargets(t, sel, patch);
    var image := set g | g in missing :: plan[g];
    forall g | g in missing ensures g in plan && plan[g] !in t.groups && plan[g] in t'.groups {
      assert Target(t, Overlay(ConfigAt(t, g), patch), plan[g], t');
    }
    forall p | p in t'.groups && p !in t.groups ensures p in image {
      var g := UpdatedGroupOk(t, sel, patch, plan, t', p);
      assert Target(t, Overlay(ConfigAt(t, g), patch), plan[g], t');
    }
    InjectiveImageSize(plan, missing, image);
    DisjointSize(t.groups.Keys, image, t'.groups.Keys);
  }

  // ---------------------------------------------------------------------- Add

  ghost function ExtendedView(v: map<Node, Config>, added: seq<Node>, c: Config): map<Node, Config> {
    v + map n | n in added :: c
  }

  lemma AddedGroup(t: Tables, added: seq<Node>, c: Config, g: Id, t': Tables)
    requires WellFormed(t) && AddsTo(t, added, c, g, t')
    ensures g in t'.groups && t'.groups[g].configId in t'.configs && ConfigAt(t', g) == c
    ensures Submap(t.groups, t'.groups) && Submap(t.configs, t'.configs)
    ensures KeyedById(t')
  {
    if g in t.groups { assert GroupOk(t, t.groups[g]); }
  }

  lemma PairKeepsGroupsOk(t: Tables, c: Config, g: Id, t': Tables)
    requires GroupsOk(t) && NewPair(t, t', g, c) && c.kernel != ""
    requires t'.groups == t.groups[g := t'.groups[g]]
    requires t'.configs == t.configs[t'.groups[g].configId := t'.configs[t'.groups[g].configId]]
    ensures GroupsOk(t')
  {
    forall h | h in t.groups ensures GroupOk(t', t'.groups[h]) { assert GroupOk(t, t.groups[h]); }
    forall k | k in t'.configs ensures HasGroup(t', k) {
      if k in t.configs {
        assert HasGroup(t, k);
        var h :| h in t.groups && t.groups[h].configId == k;
        assert h in t'.groups && t'.groups[h].configId == k;
      } else {
        assert t'.groups[g].configId == k;
      }
    }
  }

  lemma AddKeepsGroupsOk(t: Tables, added: seq<Node>, c: Config, g: Id, t': Tables)
    requires WellFormed(t) && AddsTo(t, added, c, g, t')
    ensures GroupsOk(t')
  {
    hide AssignmentsOk, KeyedById;
    if Stored(t, c) {
      forall k | k in t'.configs ensures HasGroup(t', k) { assert HasGroup(t, k); }
    } else {
      PairKeepsGroupsOk(t, c, g, t');
    }
  }

  lemma AppendDistinct(s: seq<Assignment>, g: Id, added: seq<Node>)
    requires DistinctNodes(s) && DistinctIds(added)
    requires forall a, n | a in s && n in added :: a.node != n.id
    ensures DistinctNodes(s + AssignAll(g, added))
  {}

  lemma AddKeepsAssignmentsOk(t: Tables, added: seq<Node>, g: Id, t': Tables)
    requires AssignmentsOk(t) && DistinctIds(added) && (forall n | n in added :: n.id !in t.nodes)
    requires t'.nodes == t.nodes + ById(added) && t'.assignments == t.assignments + AssignAll(g, added)
    requires g in t'.groups && Submap(t.groups, t'.groups)
    ensures AssignmentsOk(t')
  {
    var extra := AssignAll(g, added);
    AppendDistinct(t.assignments, g, added);
    forall id | id in t'.nodes ensures Assigned(t', id) {
      if id in t.nodes {
        assert Assigned(t, id);
        var h :| Assignment(h, id) in t.assignments;
        assert Assignment(h, id) in t'.assignments;
      } else {
        var i :| 0 <= i < |added| && added[i].id == id;
        assert extra[i] in t'.assignments;
      }
    }
  }

  lemma AddedNode(t: Tables, added: seq<Node>, c: Config, g: Id, t': Tables, n: Node)
    requires AssignmentsOk(t') && n in added && DistinctIds(added)
    requires t'.nodes == t.nodes + ById(added) && t'.assignments == t.assignments + AssignAll(g, added)
    requires Leads(t', Assignment(g, n.id), c)
    ensures ResolvesTo(t', n, c)
  {
    var i :| 0 <= i < |added| && added[i] == n;
    var a := AssignAll(g, added)[i];
    assert a in t'.assignments;
    OneResolves(t', n, a, c);
  }

  lemma KeptNode(t: Tables, t': Tables, n: Node)
    requires WellFormed(t) && n in View(t) && AssignmentsOk(t')
    requires Submap(t.nodes, t'.nodes) && Submap(t.groups, t'.groups) && Submap(t.configs, t'.configs)
    requires t.assignments <= t'.assignments
    ensures ResolvesTo(t', n, View(t)[n])
  {}

  lemma AddedView(t: Tables, added: seq<Node>, c: Config, g: Id, t': Tables)
    requires WellFormed(t) && WellFormed(t') && DistinctIds(added)
    requires forall n | n in added :: n.id !in t.nodes
    requires t'.nodes == t.nodes + ById(added) && t'.assignments == t.assignments + AssignAll(g, added)
    requires Submap(t.groups, t'.groups) && Submap(t.configs, t'.configs)
    requires g in t'.groups && t'.groups[g].configId in t'.configs && ConfigAt(t', g) == c
    ensures View(t') == ExtendedView(View(t), added, c)
  {
    var w := ExtendedView(View(t), added, c);
    forall n | n in w ensures ResolvesTo(t', n, w[n]) {
      if n in added { AddedNode(t, added, c, g, t', n); } else { KeptNode(t, t', n); }
    }
    forall id | id in t'.nodes ensures t'.nodes[id] in w {
      if id !in t.nodes { assert ById(added)[id] in added; }
    }
    ViewIs(t', w);
  }

  /** Add keeps every configuration and gives each added node the request's. */
  lemma AddRefinesExtension(t: Tables, added: seq<Node>, c: Config, t': Tables)
    requires WellFormed(t) && Adds(t, added, c, t')
    ensures WellFormed(t')
    ensures View(t') == ExtendedView(View(t), added, c)
  {
    var g :| AddsTo(t, added, c, g, t');
    AddedGroup(t, added, c, g, t');
    AddKeepsGroupsOk(t, added, c, g, t');
    AddKeepsAssignmentsOk(t, added, g, t');
    AddedView(t, added, c, g, t');
  }

  /** The search for an existing group is complete: Add never stores content
      twice. */
  lemma AddKeepsDeduplicated(t: Tables, added: seq<Node>, c: Config, t': Tables)
    requires WellFormed(t) && Adds(t, added, c, t') && WellFormed(t')
    ensures Deduplicated(t') <==> Deduplicated(t)
  {
    hide AssignmentsOk, HasGroup, KeyedById;
    var g :| AddsTo(t, added, c, g, t');
    AddedGroup(t, added, c, g, t');
    forall p, q | p in t.groups && q in t.groups
      ensures ConfigAt(t', p) == ConfigAt(t, p) && ConfigAt(t', q) == ConfigAt(t, q)
    {
      StoredIn(t, t', p);
      StoredIn(t, t', q);
    }
    if !Stored(t, c) {
      forall h | h in t.groups ensures ConfigAt(t, h) != c { StoredIn(t, t', h); }
    }
  }
}
