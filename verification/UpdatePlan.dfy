/** The bookkeeping of one update: which groups and configs are to be inserted,
    which are reused, and which nodes move to them. */
module UpdatePlan {
  import opened Tables
  import opened StoreSpec
  import opened StoreLaws
  import opened StatementSafety

  /** A boot group with its boot config. */
  datatype Bgbc = Bgbc(bg: BootGroup, bc: BootConfig)

  function BgbcAt(t: Tables, g: Id): Bgbc
    requires g in t.groups && t.groups[g].configId in t.configs
  {
    Bgbc(t.groups[g], t.configs[t.groups[g].configId])
  }

  predicate SelectsRow(t: Tables, sel: Selector, n: Node) {
    n.id in t.nodes && t.nodes[n.id] == n && Selects(sel, n)
  }

  /** The selected nodes of group g. */
  predicate ListsGroup(t: Tables, sel: Selector, g: Id, list: seq<Node>) {
    && list != []
    && (forall n | n in list :: SelectsRow(t, sel, n) && Assignment(g, n.id) in t.assignments)
    && (forall a | a in t.assignments && a.group == g && SelectsId(t, sel, a.node) :: t.nodes[a.node] in list)
  }

  /** Old group g is planned as k: reused when its overlaid content is stored,
      else to be inserted under fresh ids. */
  ghost predicate PlansGroup(t: Tables, sel: Selector, patch: Config, g: Id, k: Bgbc,
                             toAdd: map<Bgbc, seq<Node>>, toReuse: map<Bgbc, seq<Node>>)
  {
    && g in t.groups && t.groups[g].configId in t.configs
    && var c := Overlay(ConfigAt(t, g), patch);
       k.bc.config == c
       && if Stored(t, c) then
            k in toReuse && k !in toAdd && ListsGroup(t, sel, g, toReuse[k])
            && k.bg.id in t.groups && t.groups[k.bg.id] == k.bg && k.bg.configId in t.configs
            && ConfigAt(t, k.bg.id) == c
          else
            k in toAdd && k !in toReuse && ListsGroup(t, sel, g, toAdd[k])
            && k.bg == BootGroup(k.bg.id, k.bc.id, NodesLabel(c), NodesLabel(c))
  }

  predicate FreshIds(k: Bgbc, lo: Id, hi: Id) { lo <= k.bc.id < hi && lo <= k.bg.id < hi }

  predicate KeysApart(k: Bgbc, l: Bgbc, toAdd: map<Bgbc, seq<Node>>) {
    k.bc.id != l.bc.id && (k in toAdd && l in toAdd ==> k.bg.id != l.bg.id)
  }

  predicate Inverse(target: map<Id, Bgbc>, source: map<Bgbc, Id>) {
    && (forall g | g in target :: target[g] in source && source[target[g]] == g)
    && (forall k | k in source :: source[k] in target && target[source[k]] == k)
  }

  predicate PlanShape(target: map<Id, Bgbc>, source: map<Bgbc, Id>,
                      toAdd: map<Bgbc, seq<Node>>, toReuse: map<Bgbc, seq<Node>>, lo: Id, hi: Id)
  {
    && Inverse(target, source)
    && source.Keys == toAdd.Keys + toReuse.Keys
    && (forall k | k in source :: lo <= k.bc.id < hi)
    && (forall k | k in toAdd :: FreshIds(k, lo, hi))
    && (forall k, l | k in source && l in source && k != l :: KeysApart(k, l, toAdd))
  }

  /** Everything planned so far: target maps each processed old group to its
      entry in one of the two maps, and source maps the entry back. */
  ghost predicate Plans(t: Tables, sel: Selector, patch: Config, target: map<Id, Bgbc>, source: map<Bgbc, Id>,
                        toAdd: map<Bgbc, seq<Node>>, toReuse: map<Bgbc, seq<Node>>, lo: Id, hi: Id)
  {
    && PlanShape(target, source, toAdd, toReuse, lo, hi)
    && (forall k | k in source :: PlansGroup(t, sel, patch, source[k], k, toAdd, toReuse))
  }

  // -------------------------------------------------------------- extending it

  lemma StillPlanned(t: Tables, sel: Selector, patch: Config, g: Id, l: Bgbc,
                     toAdd: map<Bgbc, seq<Node>>, toReuse: map<Bgbc, seq<Node>>, k: Bgbc, list: seq<Node>)
    requires PlansGroup(t, sel, patch, g, l, toAdd, toReuse) && l != k
    ensures PlansGroup(t, sel, patch, g, l, toAdd[k := list], toReuse)
    ensures PlansGroup(t, sel, patch, g, l, toAdd, toReuse[k := list])
  {}

  lemma ShapeReuse(target: map<Id, Bgbc>, source: map<Bgbc, Id>, toAdd: map<Bgbc, seq<Node>>,
                   toReuse: map<Bgbc, seq<Node>>, lo: Id, hi: Id, hi': Id, g: Id, k: Bgbc, list: seq<Node>)
    requires PlanShape(target, source, toAdd, toReuse, lo, hi) && g !in target
    requires lo <= hi <= k.bc.id < hi'
    ensures k !in source && PlanShape(target[g := k], source[k := g], toAdd, toReuse[k := list], lo, hi')
  {}

  lemma ShapeAdd(target: map<Id, Bgbc>, source: map<Bgbc, Id>, toAdd: map<Bgbc, seq<Node>>,
                 toReuse: map<Bgbc, seq<Node>>, lo: Id, hi: Id, hi': Id, g: Id, k: Bgbc, list: seq<Node>)
    requires PlanShape(target, source, toAdd, toReuse, lo, hi) && g !in target
    requires lo <= hi && FreshIds(k, hi, hi')
    ensures k !in source && PlanShape(target[g := k], source[k := g], toAdd[k := list], toReuse, lo, hi')
  {}

  lemma PlanReuse(t: Tables, sel: Selector, patch: Config, target: map<Id, Bgbc>, source: map<Bgbc, Id>,
                  toAdd: map<Bgbc, seq<Node>>, toReuse: map<Bgbc, seq<Node>>, lo: Id, hi: Id, hi': Id,
                  g: Id, k: Bgbc, list: seq<Node>)
    requires Plans(t, sel, patch, target, source, toAdd, toReuse, lo, hi) && g !in target
    requires lo <= hi <= k.bc.id < hi'
    requires PlansGroup(t, sel, patch, g, k, toAdd, toReuse[k := list])
    ensures Plans(t, sel, patch, target[g := k], source[k := g], toAdd, toReuse[k := list], lo, hi')
  {
    ShapeReuse(target, source, toAdd, toReuse, lo, hi, hi', g, k, list);
    forall l | l in source ensures PlansGroup(t, sel, patch, source[l], l, toAdd, toReuse[k := list]) {
      StillPlanned(t, sel, patch, source[l], l, toAdd, toReuse, k, list);
    }
  }

  lemma PlanAdd(t: Tables, sel: Selector, patch: Config, target: map<Id, Bgbc>, source: map<Bgbc, Id>,
                toAdd: map<Bgbc, seq<Node>>, toReuse: map<Bgbc, seq<Node>>, lo: Id, hi: Id, hi': Id,
                g: Id, k: Bgbc, list: seq<Node>)
    requires Plans(t, sel, patch, target, source, toAdd, toReuse, lo, hi) && g !in target
    requires lo <= hi && FreshIds(k, hi, hi')
    requires PlansGroup(t, sel, patch, g, k, toAdd[k := list], toReuse)
    ensures Plans(t, sel, patch, target[g := k], source[k := g], toAdd[k := list], toReuse, lo, hi')
  {
    ShapeAdd(target, source, toAdd, toReuse, lo, hi, hi', g, k, list);
    forall l | l in source ensures PlansGroup(t, sel, patch, source[l], l, toAdd[k := list], toReuse) {
      StillPlanned(t, sel, patch, source[l], l, toAdd, toReuse, k, list);
    }
  }

  // --------------------------------------------------------------- repointing

  /** An assignment once the entries in done have been repointed. */
  predicate InDone(t: Tables, sel: Selector, target: map<Id, Bgbc>, done: set<Bgbc>, a: Assignment) {
    SelectsId(t, sel, a.node) && a.group in target && target[a.group] in done
  }

  function MovedOne(t: Tables, sel: Selector, target: map<Id, Bgbc>, done: set<Bgbc>, a: Assignment): Assignment {
    if InDone(t, sel, target, done, a) then Assignment(target[a.group].bg.id, a.node) else a
  }

  function Moved(t: Tables, sel: Selector, target: map<Id, Bgbc>, done: set<Bgbc>): (s: seq<Assignment>)
    ensures |s| == |t.assignments|
  {
    seq(|t.assignments|, i requires 0 <= i < |t.assignments| => MovedOne(t, sel, target, done, t.assignments[i]))
  }

  function AssignedTo(s: seq<Assignment>, nodeIds: set<Id>, g: Id): seq<Assignment> {
    seq(|s|, i requires 0 <= i < |s| => if s[i].node in nodeIds then Assignment(g, s[i].node) else s[i])
  }

  /** Repointing the nodes of one entry adds it to the ones done. */
  lemma MoveStep(t: Tables, sel: Selector, target: map<Id, Bgbc>, source: map<Bgbc, Id>, done: set<Bgbc>,
                 k: Bgbc, list: seq<Node>, nodeIds: set<Id>)
    requires KeyedById(t) && AssignmentsOk(t) && Inverse(target, source) && k in source
    requires ListsGroup(t, sel, source[k], list)
    requires nodeIds == set n | n in list :: n.id
    ensures AssignedTo(Moved(t, sel, target, done), nodeIds, k.bg.id) == Moved(t, sel, target, done + {k})
  {}

  // ------------------------------------------------------------------ inserting

  /** s has the rows of t and exactly the planned pairs more. */
  ghost predicate Inserted(t: Tables, toAdd: map<Bgbc, seq<Node>>, s: Tables) {
    && Submap(t.groups, s.groups) && Submap(t.configs, s.configs)
    && (forall k | k in toAdd ::
          k.bg.id in s.groups && s.groups[k.bg.id] == k.bg && k.bc.id in s.configs && s.configs[k.bc.id] == k.bc)
    && (forall g | g in s.groups && g !in t.groups :: exists k :: k in toAdd && k.bg.id == g)
    && (forall c | c in s.configs && c !in t.configs :: exists k :: k in toAdd && k.bc.id == c)
  }

  predicate IdsBelow(t: Tables, lo: Id) {
    BLANK_ID < lo && (forall g | g in t.groups :: g < lo) && (forall c | c in t.configs :: c < lo)
  }

  /** Where an entry leads once the planned pairs are inserted. */
  lemma EntryLeads(t: Tables, sel: Selector, patch: Config, target: map<Id, Bgbc>, source: map<Bgbc, Id>,
                   toAdd: map<Bgbc, seq<Node>>, toReuse: map<Bgbc, seq<Node>>, lo: Id, hi: Id, s: Tables, k: Bgbc)
    requires WellFormed(t) && IdsBelow(t, lo)
    requires Plans(t, sel, patch, target, source, toAdd, toReuse, lo, hi) && k in source && Inserted(t, toAdd, s)
    ensures source[k] in t.groups && t.groups[source[k]].configId in t.configs
    ensures var c := Overlay(ConfigAt(t, source[k]), patch);
            Target(t, c, k.bg.id, s)
            && k.bg.id in s.groups && s.groups[k.bg.id].configId in s.configs && ConfigAt(s, k.bg.id) == c
    ensures k in toAdd <==> k.bg.id !in t.groups
  {
    assert PlansGroup(t, sel, patch, source[k], k, toAdd, toReuse);
  }

  lemma MovedIsMidUpdate(t: Tables, sel: Selector, patch: Config, target: map<Id, Bgbc>, source: map<Bgbc, Id>,
                         toAdd: map<Bgbc, seq<Node>>, toReuse: map<Bgbc, seq<Node>>, lo: Id, hi: Id,
                         done: set<Bgbc>, s: Tables)
    requires WellFormed(t) && IdsBelow(t, lo)
    requires Plans(t, sel, patch, target, source, toAdd, toReuse, lo, hi) && Inserted(t, toAdd, s)
    requires s.nodes == t.nodes && s.assignments == Moved(t, sel, target, done)
    ensures MidUpdate(t, sel, patch, s)
  {}

  // ------------------------------------------------------------------- finished

  function PlanOf(target: map<Id, Bgbc>): map<Id, Id> { map g | g in target :: target[g].bg.id }

  lemma FinishedTargets(t: Tables, sel: Selector, patch: Config, target: map<Id, Bgbc>, source: map<Bgbc, Id>,
                        toAdd: map<Bgbc, seq<Node>>, toReuse: map<Bgbc, seq<Node>>, lo: Id, hi: Id, s: Tables)
    requires WellFormed(t) && IdsBelow(t, lo)
    requires Plans(t, sel, patch, target, source, toAdd, toReuse, lo, hi) && Inserted(t, toAdd, s)
    ensures forall g | g in PlanOf(target) ::
              g in t.groups && t.groups[g].configId in t.configs
              && Target(t, Overlay(ConfigAt(t, g), patch), PlanOf(target)[g], s)
  {
    forall g | g in target
      ensures g in t.groups && t.groups[g].configId in t.configs
      ensures Target(t, Overlay(ConfigAt(t, g), patch), target[g].bg.id, s)
    {
      EntryLeads(t, sel, patch, target, source, toAdd, toReuse, lo, hi, s, target[g]);
    }
  }

  predicate NewApart(t: Tables, target: map<Id, Bgbc>, s: Tables, g: Id, h: Id)
    requires g in target && h in target
  {
    var p, q := target[g].bg.id, target[h].bg.id;
    p !in t.groups ==> p != q && p in s.groups && q in s.groups && s.groups[p].configId != s.groups[q].configId
  }

  lemma NewTargetsApart(t: Tables, sel: Selector, patch: Config, target: map<Id, Bgbc>, source: map<Bgbc, Id>,
                        toAdd: map<Bgbc, seq<Node>>, toReuse: map<Bgbc, seq<Node>>, lo: Id, hi: Id, s: Tables,
                        g: Id, h: Id)
    requires WellFormed(t) && IdsBelow(t, lo)
    requires Plans(t, sel, patch, target, source, toAdd, toReuse, lo, hi) && Inserted(t, toAdd, s)
    requires g in target && h in target && g != h
    ensures NewApart(t, target, s, g, h)
  {
    var k, l := target[g], target[h];
    EntryLeads(t, sel, patch, target, source, toAdd, toReuse, lo, hi, s, k);
    EntryLeads(t, sel, patch, target, source, toAdd, toReuse, lo, hi, s, l);
    assert KeysApart(k, l, toAdd);
    assert PlansGroup(t, sel, patch, g, k, toAdd, toReuse);
    assert PlansGroup(t, sel, patch, h, l, toAdd, toReuse);
    if l.bg.id in t.groups { assert GroupOk(t, t.groups[l.bg.id]); }
  }

  lemma FinishedGrown(t: Tables, sel: Selector, patch: Config, target: map<Id, Bgbc>, source: map<Bgbc, Id>,
                      toAdd: map<Bgbc, seq<Node>>, toReuse: map<Bgbc, seq<Node>>, lo: Id, hi: Id, s: Tables)
    requires WellFormed(t) && IdsBelow(t, lo)
    requires Plans(t, sel, patch, target, source, toAdd, toReuse, lo, hi) && Inserted(t, toAdd, s)
    ensures GrownBy(t, PlanOf(target), s)
  {
    var plan := PlanOf(target);
    forall g | g in s.groups && g !in t.groups ensures g in plan.Values {
      var k :| k in toAdd && k.bg.id == g;
      assert plan[source[k]] == g;
    }
    forall c | c in s.configs && c !in t.configs
      ensures exists g :: g in s.groups && g !in t.groups && s.groups[g].configId == c
    {
      var k :| k in toAdd && k.bc.id == c;
      assert PlansGroup(t, sel, patch, source[k], k, toAdd, toReuse);
      EntryLeads(t, sel, patch, target, source, toAdd, toReuse, lo, hi, s, k);
      assert s.groups[k.bg.id].configId == c;
    }
  }

  lemma PlanOkFrom(t: Tables, sel: Selector, patch: Config, target: map<Id, Bgbc>, s: Tables)
    requires WellFormed(t) && target.Keys == Touched(t, sel)
    requires forall g | g in PlanOf(target) ::
               g in t.groups && t.groups[g].configId in t.configs
               && Target(t, Overlay(ConfigAt(t, g), patch), PlanOf(target)[g], s)
    requires forall g, h | g in target && h in target && g != h :: NewApart(t, target, s, g, h)
    ensures PlanOk(t, sel, patch, PlanOf(target), s)
  {
    hide WellFormed, Target;
    var plan := PlanOf(target);
    forall g, h | g in plan && h in plan && g != h && plan[g] !in t.groups
      ensures plan[g] != plan[h] && plan[g] in s.groups && plan[h] in s.groups
      ensures s.groups[plan[g]].configId != s.groups[plan[h]].configId
    {
      assert NewApart(t, target, s, g, h);
    }
  }

  lemma Finished(t: Tables, sel: Selector, patch: Config, target: map<Id, Bgbc>, source: map<Bgbc, Id>,
                 toAdd: map<Bgbc, seq<Node>>, toReuse: map<Bgbc, seq<Node>>, lo: Id, hi: Id, s: Tables)
    requires WellFormed(t) && IdsBelow(t, lo) && target.Keys == Touched(t, sel)
    requires Plans(t, sel, patch, target, source, toAdd, toReuse, lo, hi) && Inserted(t, toAdd, s)
    requires s.nodes == t.nodes && s.assignments == Moved(t, sel, target, source.Keys)
    ensures UpdatesBy(t, sel, patch, PlanOf(target), s)
  {
    FinishedTargets(t, sel, patch, target, source, toAdd, toReuse, lo, hi, s);
    forall g, h | g in target && h in target && g != h ensures NewApart(t, target, s, g, h) {
      NewTargetsApart(t, sel, patch, target, source, toAdd, toReuse, lo, hi, s, g, h);
    }
    PlanOkFrom(t, sel, patch, target, s);
    FinishedGrown(t, sel, patch, target, source, toAdd, toReuse, lo, hi, s);
    forall i | 0 <= i < |t.assignments|
      ensures Repointed(t, sel, PlanOf(target), t.assignments[i], s.assignments[i])
    {
      assert t.assignments[i] in t.assignments;
    }
  }

  lemma InsertedStays(t: Tables, toAdd: map<Bgbc, seq<Node>>, s: Tables, s': Tables)
    requires Inserted(t, toAdd, s) && s'.groups == s.groups && s'.configs == s.configs
    ensures Inserted(t, toAdd, s')
  {}

  // ---------------------------------------------------------- glue for the calls

  lemma PlannedEntries(t: Tables, sel: Selector, patch: Config, target: map<Id, Bgbc>, source: map<Bgbc, Id>,
                       toAdd: map<Bgbc, seq<Node>>, toReuse: map<Bgbc, seq<Node>>, lo: Id, hi: Id)
    requires Plans(t, sel, patch, target, source, toAdd, toReuse, lo, hi) && KeyedById(t) && BLANK_ID < lo
    ensures forall k, l | k in toAdd && l in toAdd && k != l :: k.bc.id != l.bc.id && k.bg.id != l.bg.id
    ensures forall k | k in toAdd :: k in source && k.bg.id != BLANK_ID && ListsGroup(t, sel, source[k], toAdd[k])
    ensures forall k | k in toReuse :: k in source && k.bg.id != BLANK_ID && ListsGroup(t, sel, source[k], toReuse[k])
  {
    ApartInserts(target, source, toAdd, toReuse, lo, hi);
    forall k | k in source
      ensures k in toAdd ==> ListsGroup(t, sel, source[k], toAdd[k])
      ensures k in toReuse ==> ListsGroup(t, sel, source[k], toReuse[k]) && k.bg.id != BLANK_ID
    {
      PlannedEntry(t, sel, patch, source[k], k, toAdd, toReuse);
    }
  }

  lemma ApartInserts(target: map<Id, Bgbc>, source: map<Bgbc, Id>, toAdd: map<Bgbc, seq<Node>>,
                     toReuse: map<Bgbc, seq<Node>>, lo: Id, hi: Id)
    requires PlanShape(target, source, toAdd, toReuse, lo, hi) && BLANK_ID < lo
    ensures forall k, l | k in toAdd && l in toAdd && k != l :: k.bc.id != l.bc.id && k.bg.id != l.bg.id
    ensures forall k | k in toAdd :: k.bg.id != BLANK_ID
  {}

  lemma PlannedEntry(t: Tables, sel: Selector, patch: Config, g: Id, k: Bgbc,
                     toAdd: map<Bgbc, seq<Node>>, toReuse: map<Bgbc, seq<Node>>)
    requires PlansGroup(t, sel, patch, g, k, toAdd, toReuse) && KeyedById(t)
    ensures k in toAdd ==> ListsGroup(t, sel, g, toAdd[k])
    ensures k in toReuse ==> ListsGroup(t, sel, g, toReuse[k]) && k.bg.id != BLANK_ID
  {}

  lemma NothingMoved(t: Tables, sel: Selector, target: map<Id, Bgbc>)
    ensures Moved(t, sel, target, {}) == t.assignments
  {}

  function ListedIds(m: map<Bgbc, seq<Node>>): set<Id> { set k, n | k in m && n in m[k] :: n.id }

  /** The nodes of all entries are exactly the selected ones. */
  lemma AllListed(t: Tables, sel: Selector, patch: Config, target: map<Id, Bgbc>, source: map<Bgbc, Id>,
                  toAdd: map<Bgbc, seq<Node>>, toReuse: map<Bgbc, seq<Node>>, lo: Id, hi: Id)
    requires Plans(t, sel, patch, target, source, toAdd, toReuse, lo, hi) && WellFormed(t)
    requires target.Keys == Touched(t, sel)
    ensures ListedIds(toAdd) + ListedIds(toReuse) == SelectedIds(t, sel)
  {
    hide Touched, ListedIds, PlansGroup, GroupsOk;
    ListedAreSelected(t, sel, patch, source, toAdd, toReuse);
    forall id | id in SelectedIds(t, sel) ensures id in ListedIds(toAdd) + ListedIds(toReuse) {
      SelectedIsListed(t, sel, patch, target, source, toAdd, toReuse, lo, hi, id);
    }
  }

  lemma ListedAreSelected(t: Tables, sel: Selector, patch: Config, source: map<Bgbc, Id>,
                          toAdd: map<Bgbc, seq<Node>>, toReuse: map<Bgbc, seq<Node>>)
    requires source.Keys == toAdd.Keys + toReuse.Keys
    requires forall k | k in source :: PlansGroup(t, sel, patch, source[k], k, toAdd, toReuse)
    ensures ListedIds(toAdd) <= SelectedIds(t, sel) && ListedIds(toReuse) <= SelectedIds(t, sel)
  {}

  lemma SelectedIsListed(t: Tables, sel: Selector, patch: Config, target: map<Id, Bgbc>, source: map<Bgbc, Id>,
                         toAdd: map<Bgbc, seq<Node>>, toReuse: map<Bgbc, seq<Node>>, lo: Id, hi: Id, id: Id)
    requires Plans(t, sel, patch, target, source, toAdd, toReuse, lo, hi) && WellFormed(t)
    requires target.Keys == Touched(t, sel) && SelectsId(t, sel, id)
    ensures id in ListedIds(toAdd) || id in ListedIds(toReuse)
  {
    assert Assigned(t, id);
    var g := GroupOf(t, id);
    assert SelectsId(t, sel, Assignment(g, id).node);
    assert g in Touched(t, sel);
    var k := target[g];
    assert PlansGroup(t, sel, patch, source[k], k, toAdd, toReuse);
    var n := t.nodes[id];
    assert n.id == id;
    if k in toAdd { assert n in toAdd[k]; } else { assert n in toReuse[k]; }
  }

  predicate OnlyInserted(t: Tables, s: Tables) {
    && s.nodes == t.nodes && s.assignments == t.assignments
    && Submap(t.groups, s.groups) && Submap(t.configs, s.configs)
  }

  lemma InsertedIsMidUpdate(t: Tables, sel: Selector, patch: Config, s: Tables)
    requires WellFormed(t) && OnlyInserted(t, s)
    ensures MidUpdate(t, sel, patch, s)
  {}

  /** The tables after one of the statements of an update. */
  ghost predicate UpdateStage(t: Tables, sel: Selector, target: map<Id, Bgbc>, toAdd: map<Bgbc, seq<Node>>, s: Tables) {
    || OnlyInserted(t, s)
    || (Inserted(t, toAdd, s) && s.nodes == t.nodes && exists d :: s.assignments == Moved(t, sel, target, d))
  }

  lemma UpdateStageMid(t: Tables, sel: Selector, patch: Config, target: map<Id, Bgbc>, source: map<Bgbc, Id>,
                       toAdd: map<Bgbc, seq<Node>>, toReuse: map<Bgbc, seq<Node>>, lo: Id, hi: Id, s: Tables)
    requires WellFormed(t) && IdsBelow(t, lo) && Plans(t, sel, patch, target, source, toAdd, toReuse, lo, hi)
    requires UpdateStage(t, sel, target, toAdd, s)
    ensures OldOrNew(t, sel, patch, s)
  {
    if OnlyInserted(t, s) {
      InsertedIsMidUpdate(t, sel, patch, s);
    } else {
      var d :| s.assignments == Moved(t, sel, target, d);
      MovedIsMidUpdate(t, sel, patch, target, source, toAdd, toReuse, lo, hi, d, s);
    }
    MidUpdateOldOrNew(t, sel, patch, s);
  }

  /** Once everything is inserted and repointed, the tables are updated as
      specified, and every table on the way was safe to read. */
  lemma UpdateExecuted(t: Tables, sel: Selector, patch: Config, target: map<Id, Bgbc>, source: map<Bgbc, Id>,
                       toAdd: map<Bgbc, seq<Node>>, toReuse: map<Bgbc, seq<Node>>, lo: Id, hi: Id, s: Tables,
                       stages: seq<Tables>)
    requires WellFormed(t) && IdsBelow(t, lo) && target.Keys == Touched(t, sel)
    requires Plans(t, sel, patch, target, source, toAdd, toReuse, lo, hi) && Inserted(t, toAdd, s)
    requires s.nodes == t.nodes && s.assignments == Moved(t, sel, target, source.Keys)
    requires forall h | h in stages :: UpdateStage(t, sel, target, toAdd, h)
    ensures Updates(t, sel, patch, s) && WellFormed(s)
    ensures forall h | h in stages :: OldOrNew(t, sel, patch, h)
    ensures ListedIds(toAdd) + ListedIds(toReuse) == SelectedIds(t, sel)
  {
    Finished(t, sel, patch, target, source, toAdd, toReuse, lo, hi, s);
    UpdateRefinesOverlay(t, sel, patch, s);
    AllListed(t, sel, patch, target, source, toAdd, toReuse, lo, hi);
    forall h | h in stages ensures OldOrNew(t, sel, patch, h) {
      UpdateStageMid(t, sel, patch, target, source, toAdd, toReuse, lo, hi, h);
    }
  }
}
