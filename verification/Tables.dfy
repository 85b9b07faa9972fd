/** The four Postgres tables as one value, what makes them well formed, and the
    map they stand for: every node row to its (kernel, initrd, params). */
module Tables {

  /** Row ids are UUIDs; 0 stands for the empty string the code tests for. */
  type Id = nat
  const BLANK_ID: Id := 0

  /** The part of a boot_configs row that is not its id. */
  datatype Config = Config(kernel: string, initrd: string, params: string) {
    predicate Blank() { kernel == "" && initrd == "" && params == "" }
  }

  datatype Node = Node(id: Id, mac: string, xname: string, nid: int)

  datatype BootConfig = BootConfig(id: Id, config: Config)

  /** A formatted group name or description.  Both formats quote the three
      fields of the config, so each is determined by it and determines it. */
  datatype Label = NodesLabel(config: Config) | NodeGroupLabel(name: string)

  datatype BootGroup = BootGroup(id: Id, configId: Id, name: Label, description: Label)

  datatype Assignment = Assignment(group: Id, node: Id)

  datatype Tables = Tables(
    nodes: map<Id, Node>,
    assignments: seq<Assignment>,
    groups: map<Id, BootGroup>,
    configs: map<Id, BootConfig>)

  const EMPTY := Tables(map[], [], map[], map[])

  // ---------------------------------------------------------------- selectors

  datatype Selector = Selector(macs: seq<string>, xnames: seq<string>, nids: seq<int>) {
    predicate Everything() { macs == [] && xnames == [] && nids == [] }
  }

  function LowerChar(c: char): char {
    if 'A' <= c <= 'Z' then (c as int + 32) as char else c
  }

  /** strings.ToLower on the ASCII text of a MAC address. */
  function Lower(s: string): string {
    seq(|s|, i requires 0 <= i < |s| => LowerChar(s[i]))
  }

  predicate NamesMac(macs: seq<string>, mac: string) {
    exists m :: m in macs && Lower(m) == mac
  }

  /** The WHERE clause shared by the node queries: any column may match, and no
      selector at all means every node. */
  predicate Selects(sel: Selector, n: Node) {
    || sel.Everything()
    || NamesMac(sel.macs, n.mac)
    || n.xname in sel.xnames
    || n.nid in sel.nids
  }

  predicate SelectsId(t: Tables, sel: Selector, id: Id) {
    id in t.nodes && Selects(sel, t.nodes[id])
  }

  // --------------------------------------------------------- well-formedness

  ghost predicate Assigned(t: Tables, id: Id) {
    exists g :: Assignment(g, id) in t.assignments
  }

  predicate KeyedById(t: Tables) {
    && (forall id | id in t.nodes :: t.nodes[id].id == id != BLANK_ID)
    && (forall id | id in t.groups :: t.groups[id].id == id != BLANK_ID)
    && (forall id | id in t.configs :: t.configs[id].id == id != BLANK_ID)
  }

  predicate DistinctNodes(s: seq<Assignment>) {
    forall i, j | 0 <= i < j < |s| :: s[i].node != s[j].node
  }

  /** Each node has exactly one assignment, and it leads to an existing group. */
  ghost predicate AssignmentsOk(t: Tables) {
    && (forall a | a in t.assignments :: a.node in t.nodes && a.group in t.groups)
    && DistinctNodes(t.assignments)
    && (forall id {:trigger Assigned(t, id)} | id in t.nodes :: Assigned(t, id))
  }

  /** Groups and configs are one to one, configs have a kernel, and a group is
      named after its config. */
  ghost predicate GroupsOk(t: Tables) {
    && (forall g | g in t.groups :: GroupOk(t, t.groups[g]))
    && (forall g, h | g in t.groups && h in t.groups && g != h :: t.groups[g].configId != t.groups[h].configId)
    && (forall c {:trigger HasGroup(t, c)} | c in t.configs :: HasGroup(t, c))
    && (forall c | c in t.configs :: t.configs[c].config.kernel != "")
  }

  predicate GroupOk(t: Tables, bg: BootGroup) {
    && bg.configId in t.configs
    && bg.name == bg.description == NodesLabel(t.configs[bg.configId].config)
  }

  ghost predicate HasGroup(t: Tables, configId: Id) {
    exists g :: g in t.groups && t.groups[g].configId == configId
  }

  ghost predicate WellFormed(t: Tables) {
    KeyedById(t) && AssignmentsOk(t) && GroupsOk(t)
  }

  // ------------------------------------------------------------ the joined map

  function ConfigAt(t: Tables, g: Id): Config
    requires g in t.groups && t.groups[g].configId in t.configs
  {
    t.configs[t.groups[g].configId].config
  }

  ghost function GroupOf(t: Tables, id: Id): (g: Id)
    requires Assigned(t, id)
    ensures Assignment(g, id) in t.assignments
  {
    var g :| Assignment(g, id) in t.assignments; g
  }

  lemma GroupOfUnique(t: Tables, a: Assignment)
    requires AssignmentsOk(t) && a in t.assignments
    ensures Assigned(t, a.node) && GroupOf(t, a.node) == a.group
  {}

  /** What the database means: each node row with the boot configuration that
      the three joins reach from it. */
  ghost function View(t: Tables): (v: map<Node, Config>)
    requires WellFormed(t)
    ensures forall n | n in v :: n.id in t.nodes && t.nodes[n.id] == n
    ensures forall id | id in t.nodes :: t.nodes[id] in v
  {
    map n | n in t.nodes.Values :: ConfigAt(t, GroupOf(t, n.id))
  }

  /** A node resolves to c: it has an assignment, and every join row gives c.
      Total, so that it also speaks about tables between two statements. */
  predicate Leads(t: Tables, a: Assignment, c: Config) {
    a.group in t.groups && t.groups[a.group].configId in t.configs && ConfigAt(t, a.group) == c
  }

  ghost predicate ResolvesTo(t: Tables, n: Node, c: Config) {
    && n.id in t.nodes && t.nodes[n.id] == n
    && Assigned(t, n.id)
    && forall a | a in t.assignments && a.node == n.id :: Leads(t, a, c)
  }

  lemma OneResolves(t: Tables, n: Node, a: Assignment, c: Config)
    requires AssignmentsOk(t) && a in t.assignments && a.node == n.id
    requires n.id in t.nodes && t.nodes[n.id] == n && Leads(t, a, c)
    ensures ResolvesTo(t, n, c)
  {}

  /** A map that every node resolves to is the view. */
  lemma ViewIs(t: Tables, w: map<Node, Config>)
    requires WellFormed(t)
    requires forall n | n in w :: ResolvesTo(t, n, w[n])
    requires forall id | id in t.nodes :: t.nodes[id] in w
    ensures View(t) == w
  {}

  // ------------------------------------------------------------------ helpers

  predicate Submap<R(==)>(m: map<Id, R>, m': map<Id, R>) {
    forall id | id in m :: id in m' && m'[id] == m[id]
  }

  /** The fields of the request that are not blank replace the old ones. */
  function Overlay(base: Config, patch: Config): Config {
    Config(
      if patch.kernel != "" then patch.kernel else base.kernel,
      if patch.initrd != "" then patch.initrd else base.initrd,
      if patch.params != "" then patch.params else base.params)
  }

  /** Some group already holds exactly this content. */
  ghost predicate Stored(t: Tables, c: Config) {
    exists g :: g in t.groups && t.groups[g].configId in t.configs && ConfigAt(t, g) == c
  }

  /** The groups some selected node is assigned to. */
  ghost function Touched(t: Tables, sel: Selector): set<Id> {
    set a | a in t.assignments && SelectsId(t, sel, a.node) :: a.group
  }

  /** Groups that no node is assigned to. */
  ghost function Orphans(t: Tables): set<Id> {
    set g | g in t.groups && !Used(t, g)
  }

  ghost predicate Used(t: Tables, g: Id) {
    exists a :: a in t.assignments && a.group == g
  }

  /** No two groups hold the same content. */
  ghost predicate Deduplicated(t: Tables)
    requires GroupsOk(t)
  {
    forall g, h | g in t.groups && h in t.groups && g != h :: ConfigAt(t, g) != ConfigAt(t, h)
  }

  predicate DistinctIds(nodes: seq<Node>) {
    forall i, j | 0 <= i < j < |nodes| :: nodes[i].id != nodes[j].id
  }

  lemma DistinctIdsMembers(nodes: seq<Node>, m: Node, n: Node)
    requires DistinctIds(nodes) && m in nodes && n in nodes && m.id == n.id
    ensures m == n
  {}

  function ById(nodes: seq<Node>): (m: map<Id, Node>)
    requires DistinctIds(nodes)
    ensures forall n | n in nodes :: n.id in m && m[n.id] == n
    ensures forall id | id in m :: m[id] in nodes && m[id].id == id
  {
    assert forall m, n | m in nodes && n in nodes && m.id == n.id :: m == n by {
      forall m, n | m in nodes && n in nodes && m.id == n.id ensures m == n { DistinctIdsMembers(nodes, m, n); }
    }
    map n | n in nodes :: n.id := n
  }
}
