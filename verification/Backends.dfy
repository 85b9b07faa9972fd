/** The two backends against each other: an update naming node xnames is
    accepted by both or refused by both, and leaves them with the same map. */
module Backends {
  import CI = CloudInitMerge
  import K = KvSpec
  import opened KeyRanges
  import L = KvLaws
  import V = KvRevival
  import opened Requests
  import opened StoreLaws
  import opened StoreSpec
  import opened Tables

  function ConfigOf(e: K.Entry): Config { Config(e.kernel, e.initrd, e.params) }

  predicate HasHost(hosts: map<Key, K.Entry>, x: string, c: Config) {
    K.HostKey(x) in hosts && ConfigOf(hosts[K.HostKey(x)]) == c
  }

  /** The named nodes of the database and the host entries of the key-value
      store are the same, with the same configurations. */
  ghost predicate SameMeaning(t: Tables, hosts: map<Key, K.Entry>)
    requires WellFormed(t)
  {
    && (forall x | x != "" && K.HostKey(x) in hosts :: KnownXname(t, x))
    && (forall n | n in View(t) && n.xname != "" :: HasHost(hosts, n.xname, View(t)[n]))
  }

  function ByXname(names: seq<string>): Selector { Selector([], names, []) }

  function KvPatch(names: seq<string>, patch: Config): K.Params {
    K.Params(names, [], [], patch.params, patch.kernel, patch.initrd, CI.NO_CLOUD_INIT)
  }

  /** With hosts only, an update chooses them all, or refuses an unknown one. */
  lemma HostsOnlyChoices(sm: K.Sm, known: set<Key>, names: seq<string>, patch: Config)
    ensures var cs := K.Choices(sm, known, KvPatch(names, patch));
      (K.NoneAbsent(cs) <==> forall x | x in names :: K.Known(known, x))
      && (K.NoneAbsent(cs) ==> K.Used(cs) == K.HostKeys(names))
  {
    var cs := K.Choices(sm, known, KvPatch(names, patch));
    assert |cs| == |names| && forall i | 0 <= i < |names| :: cs[i] == K.ChooseHost(known, names[i]);
    forall x | x in names ensures K.ChooseHost(known, x) in cs {
      var i :| 0 <= i < |names| && names[i] == x;
      assert cs[i] in cs;
    }
    forall c | c in cs ensures exists x :: x in names && c == K.ChooseHost(known, x) {
      var i :| 0 <= i < |cs| && cs[i] == c;
      assert names[i] in names;
    }
  }

  lemma ChosenAlike(t: Tables, hosts: map<Key, K.Entry>, names: seq<string>)
    requires WellFormed(t) && SameMeaning(t, hosts) && forall x | x in names :: x != ""
    ensures (forall x | x in names :: K.Known(hosts.Keys, x)) <==> (forall x | x in names :: KnownXname(t, x))
  {}

  lemma NoneMissingIff(t: Tables, names: seq<string>)
    ensures Missing(t, ByXname(names)).Everything() <==> forall x | x in names :: KnownXname(t, x)
  {}

  lemma SomethingSelected(t: Tables, names: seq<string>)
    requires names != [] && Missing(t, ByXname(names)).Everything()
    ensures SelectedIds(t, ByXname(names)) != {}
  {
    assert names[0] in names && KnownXname(t, names[0]);
    var id :| id in t.nodes && t.nodes[id].xname == names[0];
    assert id in SelectedIds(t, ByXname(names));
  }

  /** The entries patched in place represent the overlaid view. */
  lemma OverlaidAlike(t: Tables, t': Tables, hosts: map<Key, K.Entry>, names: seq<string>, patch: Config)
    requires WellFormed(t) && WellFormed(t') && SameMeaning(t, hosts) && names != []
    requires t'.nodes == t.nodes && View(t') == OverlaidView(View(t), ByXname(names), patch)
    ensures SameMeaning(t', K.PatchEntries(hosts, K.HostKeys(names), KvPatch(names, patch)))
  {
    var patched := K.PatchEntries(hosts, K.HostKeys(names), KvPatch(names, patch));
    forall x | x != "" && K.HostKey(x) in patched ensures KnownXname(t', x) {
      assert KnownXname(t, x);
    }
    forall n | n in View(t') && n.xname != "" ensures HasHost(patched, n.xname, View(t')[n]) {
      OverlaidHost(hosts, names, patch, n, View(t)[n]);
    }
  }

  lemma OverlaidHost(hosts: map<Key, K.Entry>, names: seq<string>, patch: Config, n: Node, c: Config)
    requires HasHost(hosts, n.xname, c) && names != []
    ensures HasHost(K.PatchEntries(hosts, K.HostKeys(names), KvPatch(names, patch)), n.xname,
                    if Selects(ByXname(names), n) then Overlay(c, patch) else c)
  {
    if K.HostKey(n.xname) in K.HostKeys(names) {
      var x :| x in names && K.HostKey(x) == K.HostKey(n.xname);
      K.HostKeyInjective(x, n.xname);
    }
  }

  /** From states that mean the same, the same update by xname is refused by
      both backends, with every configuration unchanged in both, or done by
      both, with the same map as a result; no reference is to be revived, as none
      is where every reference resolves. */
  lemma BackendsAgree(t: Tables, t': Tables, o: Outcome, hash: string -> string, sm: K.Sm, s: K.Store,
                      names: seq<string>, patch: Config)
    requires WellFormed(t) && K.HashOk(hash) && K.Sound(hash, s) && L.NoClashes(hash, s, KvPatch(names, patch))
    requires SameMeaning(t, K.HostsOf(s))
    requires !V.Revives(hash, s, KvPatch(names, patch), V.UpdateWrites(sm, s, KvPatch(names, patch)))
    requires names != [] && (forall x | x in names :: x != "") && !patch.Blank()
    requires UpdateStep(t, BootParams(ByXname(names), patch), t', o)
    ensures var s' := K.UpdatedStore(hash, sm, s, KvPatch(names, patch));
      var accepted := K.NoneAbsent(K.Choices(sm, s.Keys, KvPatch(names, patch)));
      && (o == Done <==> accepted) && (accepted <==> forall x | x in names :: KnownXname(t, x))
      && (!accepted ==> t' == t && K.HostsOf(s') == K.HostsOf(s))
      && WellFormed(t') && (accepted ==> View(t') == OverlaidView(View(t), ByXname(names), patch))
      && K.Sound(hash, s') && SameMeaning(t', K.HostsOf(s'))
  {
    hide WellFormed, OverlaidView, UpdateStep;
    var bp, hosts := KvPatch(names, patch), K.HostsOf(s);
    V.UpdateRefinesIff(hash, sm, s, bp);
    L.HostChoices(sm, s, bp);
    HostsOnlyChoices(sm, hosts.Keys, names, patch);
    ChosenAlike(t, hosts, names);
    PostgresSide(t, t', o, names, patch);
    KvSide(hosts, K.HostsOf(K.UpdatedStore(hash, sm, s, bp)), sm, K.AbstractOf(hash, s), names, patch);
    if forall x | x in names :: KnownXname(t, x) { OverlaidAlike(t, t', hosts, names, patch); }
  }

  lemma PostgresSide(t: Tables, t': Tables, o: Outcome, names: seq<string>, patch: Config)
    requires WellFormed(t) && names != [] && !patch.Blank() && UpdateStep(t, BootParams(ByXname(names), patch), t', o)
    ensures o == Done <==> forall x | x in names :: KnownXname(t, x)
    ensures WellFormed(t') && t'.nodes == t.nodes && (o != Done ==> t' == t)
    ensures o == Done ==> View(t') == OverlaidView(View(t), ByXname(names), patch)
  {
    NoneMissingIff(t, names);
    if Missing(t, ByXname(names)).Everything() {
      SomethingSelected(t, names);
      UpdateRefinesOverlay(t, ByXname(names), patch, t');
    }
  }

  lemma KvSide(hosts: map<Key, K.Entry>, hosts': map<Key, K.Entry>, sm: K.Sm, a: K.Abstract, names: seq<string>,
               patch: Config)
    requires a.hosts == hosts && names != [] && hosts' == K.AbstractUpdated(sm, a, KvPatch(names, patch)).hosts
    ensures (forall x | x in names :: K.Known(hosts.Keys, x)) ==>
              hosts' == K.PatchEntries(hosts, K.HostKeys(names), KvPatch(names, patch))
    ensures !(forall x | x in names :: K.Known(hosts.Keys, x)) ==> hosts' == hosts
  {
    HostsOnlyChoices(sm, hosts.Keys, names, patch);
    assert K.HostKey(names[0]) in K.HostKeys(names);
  }
}
