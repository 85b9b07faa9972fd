/** Regrouping the boot parameters read per MAC, per xname and per NID into one
    entry per boot configuration. */
module Regroup {

  datatype Config = Config(params: string, kernel: string, initrd: string)

  datatype Entry = Entry(config: Config, macs: seq<string>, hosts: seq<string>, nids: seq<int>)

  datatype Ids = Ids(macs: seq<string>, hosts: seq<string>, nids: seq<int>)

  const NO_IDS := Ids([], [], [])

  /** The identities of one kind that the entries of this configuration list, in
      the order of the entries. */
  function MacsOf(es: seq<Entry>, c: Config): seq<string> {
    if es == [] then []
    else
      var last := es[|es| - 1];
      MacsOf(es[..|es| - 1], c) + if last.config == c then last.macs else []
  }

  function HostsOf(es: seq<Entry>, c: Config): seq<string> {
    if es == [] then []
    else
      var last := es[|es| - 1];
      HostsOf(es[..|es| - 1], c) + if last.config == c then last.hosts else []
  }

  function NidsOf(es: seq<Entry>, c: Config): seq<int> {
    if es == [] then []
    else
      var last := es[|es| - 1];
      NidsOf(es[..|es| - 1], c) + if last.config == c then last.nids else []
  }

  function Configs(es: seq<Entry>): set<Config> { set e | e in es :: e.config }

  lemma Next(es: seq<Entry>, k: nat, c: Config)
    requires k < |es|
    ensures MacsOf(es[..k + 1], c) == MacsOf(es[..k], c) + if es[k].config == c then es[k].macs else []
    ensures HostsOf(es[..k + 1], c) == HostsOf(es[..k], c) + if es[k].config == c then es[k].hosts else []
    ensures NidsOf(es[..k + 1], c) == NidsOf(es[..k], c) + if es[k].config == c then es[k].nids else []
    ensures Configs(es[..k + 1]) == Configs(es[..k]) + {es[k].config}
  {
    assert es[..k + 1][..k] == es[..k];
    assert es[..k + 1] == es[..k] + [es[k]];
  }

  lemma NoneOf(es: seq<Entry>, c: Config)
    requires c !in Configs(es)
    ensures MacsOf(es, c) == [] && HostsOf(es, c) == [] && NidsOf(es, c) == []
  {}

  /** What the map holds when these entries of each kind have been added. */
  ghost predicate Grouped(m: map<Config, Ids>, byMac: seq<Entry>, byName: seq<Entry>, byNid: seq<Entry>) {
    && m.Keys == Configs(byMac) + Configs(byName) + Configs(byNid)
    && forall c | c in m :: m[c] == Ids(MacsOf(byMac, c), HostsOf(byName, c), NidsOf(byNid, c))
  }

  function IdsAt(m: map<Config, Ids>, c: Config): Ids { if c in m then m[c] else NO_IDS }

  lemma GroupedNext(m: map<Config, Ids>, byMac: seq<Entry>, byName: seq<Entry>, byNid: seq<Entry>, c: Config)
    requires Grouped(m, byMac, byName, byNid)
    ensures IdsAt(m, c) == Ids(MacsOf(byMac, c), HostsOf(byName, c), NidsOf(byNid, c))
  {
    if c !in m {
      NoneOf(byMac, c);
      NoneOf(byName, c);
      NoneOf(byNid, c);
    }
  }

  /** m is m0 with these identities under c. */
  predicate Replaced(m0: map<Config, Ids>, m: map<Config, Ids>, c: Config, ids: Ids) {
    && m.Keys == m0.Keys + {c} && m[c] == ids
    && forall d | d in m0 && d != c :: m[d] == m0[d]
  }

  method AddMacs(m0: map<Config, Ids>, p: Entry) returns (m: map<Config, Ids>)
    ensures Replaced(m0, m, p.config, IdsAt(m0, p.config).(macs := IdsAt(m0, p.config).macs + p.macs))
  {
    m := m0;
    if p.config !in m { m := m[p.config := NO_IDS]; }
    for i := 0 to |p.macs|
      invariant Replaced(m0, m, p.config, IdsAt(m0, p.config).(macs := IdsAt(m0, p.config).macs + p.macs[..i]))
    {
      var temp := m[p.config];
      assert p.macs[..i + 1] == p.macs[..i] + [p.macs[i]];
      temp := temp.(macs := temp.macs + [p.macs[i]]);
      m := m[p.config := temp];
    }
    assert p.macs[..|p.macs|] == p.macs;
  }

  method AddHosts(m0: map<Config, Ids>, p: Entry) returns (m: map<Config, Ids>)
    ensures Replaced(m0, m, p.config, IdsAt(m0, p.config).(hosts := IdsAt(m0, p.config).hosts + p.hosts))
  {
    m := m0;
    if p.config !in m { m := m[p.config := NO_IDS]; }
    for i := 0 to |p.hosts|
      invariant Replaced(m0, m, p.config, IdsAt(m0, p.config).(hosts := IdsAt(m0, p.config).hosts + p.hosts[..i]))
    {
      var temp := m[p.config];
      assert p.hosts[..i + 1] == p.hosts[..i] + [p.hosts[i]];
      temp := temp.(hosts := temp.hosts + [p.hosts[i]]);
      m := m[p.config := temp];
    }
    assert p.hosts[..|p.hosts|] == p.hosts;
  }

  method AddNids(m0: map<Config, Ids>, p: Entry) returns (m: map<Config, Ids>)
    ensures Replaced(m0, m, p.config, IdsAt(m0, p.config).(nids := IdsAt(m0, p.config).nids + p.nids))
  {
    m := m0;
    if p.config !in m { m := m[p.config := NO_IDS]; }
    for i := 0 to |p.nids|
      invariant Replaced(m0, m, p.config, IdsAt(m0, p.config).(nids := IdsAt(m0, p.config).nids + p.nids[..i]))
    {
      var temp := m[p.config];
      assert p.nids[..i + 1] == p.nids[..i] + [p.nids[i]];
      temp := temp.(nids := temp.nids + [p.nids[i]]);
      m := m[p.config := temp];
    }
    assert p.nids[..|p.nids|] == p.nids;
  }

  lemma MacStep(m: map<Config, Ids>, m': map<Config, Ids>, byMac: seq<Entry>, byName: seq<Entry>, byNid: seq<Entry>,
                k: nat)
    requires k < |byMac| && Grouped(m, byMac[..k], [], [])
    requires var p := byMac[k]; Replaced(m, m', p.config, IdsAt(m, p.config).(macs := IdsAt(m, p.config).macs + p.macs))
    ensures Grouped(m', byMac[..k + 1], [], [])
  {
    hide MacsOf, HostsOf, NidsOf, Configs;
    GroupedNext(m, byMac[..k], [], [], byMac[k].config);
    Next(byMac, k, byMac[k].config);
    forall c | c in m'
      ensures m'[c] == Ids(MacsOf(byMac[..k + 1], c), HostsOf([], c), NidsOf([], c))
    {
      Next(byMac, k, c);
    }
  }

  lemma NameStep(m: map<Config, Ids>, m': map<Config, Ids>, byMac: seq<Entry>, byName: seq<Entry>, byNid: seq<Entry>,
                 k: nat)
    requires k < |byName| && Grouped(m, byMac, byName[..k], [])
    requires var p := byName[k];
             Replaced(m, m', p.config, IdsAt(m, p.config).(hosts := IdsAt(m, p.config).hosts + p.hosts))
    ensures Grouped(m', byMac, byName[..k + 1], [])
  {
    hide MacsOf, HostsOf, NidsOf, Configs;
    GroupedNext(m, byMac, byName[..k], [], byName[k].config);
    Next(byName, k, byName[k].config);
    forall c | c in m'
      ensures m'[c] == Ids(MacsOf(byMac, c), HostsOf(byName[..k + 1], c), NidsOf([], c))
    {
      Next(byName, k, c);
    }
  }

  lemma NidStep(m: map<Config, Ids>, m': map<Config, Ids>, byMac: seq<Entry>, byName: seq<Entry>, byNid: seq<Entry>,
                k: nat)
    requires k < |byNid| && Grouped(m, byMac, byName, byNid[..k])
    requires var p := byNid[k]; Replaced(m, m', p.config, IdsAt(m, p.config).(nids := IdsAt(m, p.config).nids + p.nids))
    ensures Grouped(m', byMac, byName, byNid[..k + 1])
  {
    hide MacsOf, HostsOf, NidsOf, Configs;
    GroupedNext(m, byMac, byName, byNid[..k], byNid[k].config);
    Next(byNid, k, byNid[k].config);
    forall c | c in m'
      ensures m'[c] == Ids(MacsOf(byMac, c), HostsOf(byName, c), NidsOf(byNid[..k + 1], c))
    {
      Next(byNid, k, c);
    }
  }

  /** The three loops over what was read. */
  method GroupAll(byMac: seq<Entry>, byName: seq<Entry>, byNid: seq<Entry>) returns (m: map<Config, Ids>)
    ensures Grouped(m, byMac, byName, byNid)
  {
    m := map[];
    for i := 0 to |byMac|
      invariant Grouped(m, byMac[..i], [], [])
    {
      ghost var before := m;
      m := AddMacs(m, byMac[i]);
      MacStep(before, m, byMac, byName, byNid, i);
    }
    assert byMac[..|byMac|] == byMac && byName[..0] == [];
    for i := 0 to |byName|
      invariant Grouped(m, byMac, byName[..i], [])
    {
      ghost var before := m;
      m := AddHosts(m, byName[i]);
      NameStep(before, m, byMac, byName, byNid, i);
    }
    assert byName[..|byName|] == byName && byNid[..0] == [];
    for i := 0 to |byNid|
      invariant Grouped(m, byMac, byName, byNid[..i])
    {
      ghost var before := m;
      m := AddNids(m, byNid[i]);
      NidStep(before, m, byMac, byName, byNid, i);
    }
    assert byNid[..|byNid|] == byNid;
  }

  predicate DistinctConfigs(es: seq<Entry>) {
    forall i, j | 0 <= i < j < |es| :: es[i].config != es[j].config
  }

  lemma ConfigsAppend(es: seq<Entry>, e: Entry)
    ensures Configs(es + [e]) == Configs(es) + {e.config}
  {
    forall d | d in es ensures d in es + [e] {}
    assert e in es + [e];
  }

  /** One entry for each configuration read, in any order, with its identities
      of each kind exactly in the order they were read. */
  method Regroup(byMac: seq<Entry>, byName: seq<Entry>, byNid: seq<Entry>) returns (results: seq<Entry>)
    ensures DistinctConfigs(results)
    ensures Configs(results) == Configs(byMac) + Configs(byName) + Configs(byNid)
    ensures forall r | r in results ::
              r == Entry(r.config, MacsOf(byMac, r.config), HostsOf(byName, r.config), NidsOf(byNid, r.config))
  {
    hide MacsOf, HostsOf, NidsOf;
    var m := GroupAll(byMac, byName, byNid);
    results := [];
    var rest := m.Keys;
    while rest != {}
      invariant rest <= m.Keys && DistinctConfigs(results)
      invariant forall r | r in results :: r.config in m && r.config !in rest
                  && r == Entry(r.config, m[r.config].macs, m[r.config].hosts, m[r.config].nids)
      invariant forall c | c in m && c !in rest :: c in Configs(results)
      decreases rest
    {
      var c :| c in rest;
      rest := rest - {c};
      var r := Entry(c, m[c].macs, m[c].hosts, m[c].nids);
      ConfigsAppend(results, r);
      results := results + [r];
    }
    assert Configs(results) == m.Keys;
  }

  // -------------------------------------------------------------- conservation

  function Times(c: Config, ids: seq<string>): multiset<(Config, string)> {
    if ids == [] then multiset{} else Times(c, ids[..|ids| - 1]) + multiset{(c, ids[|ids| - 1])}
  }

  /** Every MAC with the configuration it was listed under. */
  function MacPairs(es: seq<Entry>): multiset<(Config, string)> {
    if es == [] then multiset{} else MacPairs(es[..|es| - 1]) + Times(es[|es| - 1].config, es[|es| - 1].macs)
  }

  lemma {:induction false} TimesCount(d: Config, ids: seq<string>, c: Config, mac: string)
    ensures Times(d, ids)[(c, mac)] == if c == d then multiset(ids)[mac] else 0
  {
    if ids != [] {
      TimesCount(d, ids[..|ids| - 1], c, mac);
      assert ids == ids[..|ids| - 1] + [ids[|ids| - 1]];
    }
  }

  lemma {:induction false} PairCount(es: seq<Entry>, c: Config, mac: string)
    ensures MacPairs(es)[(c, mac)] == multiset(MacsOf(es, c))[mac]
  {
    if es != [] {
      PairCount(es[..|es| - 1], c, mac);
      TimesCount(es[|es| - 1].config, es[|es| - 1].macs, c, mac);
    }
  }

  lemma {:induction false} OneEntry(es: seq<Entry>, i: nat)
    requires DistinctConfigs(es) && i < |es|
    ensures MacsOf(es, es[i].config) == es[i].macs
  {
    var c, last := es[i].config, es[|es| - 1];
    if i == |es| - 1 {
      assert c !in Configs(es[..|es| - 1]);
      NoneOf(es[..|es| - 1], c);
    } else {
      assert last.config != c;
      OneEntry(es[..|es| - 1], i);
    }
  }

  /** Regrouping neither loses, adds nor repeats a MAC of any configuration. */
  lemma MacsConserved(byMac: seq<Entry>, results: seq<Entry>)
    requires DistinctConfigs(results) && Configs(byMac) <= Configs(results)
    requires forall r | r in results :: r.macs == MacsOf(byMac, r.config)
    ensures MacPairs(results) == MacPairs(byMac)
  {
    forall c: Config, mac: string ensures MacPairs(results)[(c, mac)] == MacPairs(byMac)[(c, mac)] {
      PairCount(results, c, mac);
      PairCount(byMac, c, mac);
      if c in Configs(results) {
        var i :| 0 <= i < |results| && results[i].config == c;
        OneEntry(results, i);
      } else {
        NoneOf(results, c);
        NoneOf(byMac, c);
      }
    }
    SameCounts(MacPairs(results), MacPairs(byMac));
  }

  lemma SameCounts(a: multiset<(Config, string)>, b: multiset<(Config, string)>)
    requires forall c: Config, mac: string :: a[(c, mac)] == b[(c, mac)]
    ensures a == b
  {
    forall p: (Config, string) ensures a[p] == b[p] { assert p == (p.0, p.1); }
  }
}
