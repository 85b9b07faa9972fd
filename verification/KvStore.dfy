/** The key-value backend as it runs: one store changed key by key, searched by
    range scans, with memo maps for conversions. */
module KvStore {
  import opened CloudInitMerge
  import opened KeyRanges
  import opened KvLaws
  import opened KvRemoval
  import opened KvSpec

  datatype MaybeName = NoName | Name(name: string)

  /** The first name, in order, that is gone when its turn comes. */
  function FirstGone(known: set<Key>, names: seq<string>): MaybeName {
    if names == [] then NoName
    else
      var before, last := names[..|names| - 1], names[|names| - 1];
      var r := FirstGone(known, before);
      if r.Name? then r
      else if HostKey(last) in known - HostKeys(before) then NoName else Name(last)
  }

  /** Nothing is reported exactly when every name is there, and only once. */
  lemma {:induction false} NothingGoneIff(known: set<Key>, names: seq<string>)
    ensures FirstGone(known, names) == NoName <==>
            (forall n | n in names :: HostKey(n) in known)
              && (forall i, j | 0 <= i < j < |names| :: names[i] != names[j])
  {
    if names != [] {
      var before, last := names[..|names| - 1], names[|names| - 1];
      NothingGoneIff(known, before);
      assert names == before + [last];
      HostKeysIff(before, last);
    }
  }

  /** What is reported is the first name that has no entry or came before. */
  lemma {:induction false} FirstGoneIff(known: set<Key>, names: seq<string>, name: string)
    ensures FirstGone(known, names) == Name(name) <==>
            exists i :: 0 <= i < |names| && names[i] == name && (HostKey(name) !in known || name in names[..i])
              && forall j | 0 <= j < i :: HostKey(names[j]) in known && names[j] !in names[..j]
  {
    hide HostKey, HostKeys;
    if names != [] {
      var before, last := names[..|names| - 1], names[|names| - 1];
      FirstGoneIff(known, before, name);
      NothingGoneIff(known, before);
      HostKeysIff(before, last);
      assert forall i | 0 <= i < |before| :: before[i] == names[i] && before[..i] == names[..i];
      assert names[..|names| - 1] == before;
      if FirstGone(known, before) == NoName {
        forall j | 0 <= j < |before| ensures before[j] !in before[..j] {}
      } else {
        GoneWitness(known, before);
      }
    }
  }

  /** When something is reported, some name has no entry or came before. */
  lemma GoneWitness(known: set<Key>, names: seq<string>)
    requires FirstGone(known, names).Name?
    ensures exists j :: 0 <= j < |names| && (HostKey(names[j]) !in known || names[j] in names[..j])
  {
    NothingGoneIff(known, names);
    if j :| 0 <= j < |names| && HostKey(names[j]) !in known {
    } else {
      var i, j :| 0 <= i < j < |names| && names[i] == names[j];
      assert names[..j][i] == names[j];
    }
  }

  lemma PutHostsNext(s: Store, names: seq<string>, b: BootDataStore, n: string)
    ensures PutHosts(s, HostKeys(names), b)[HostKey(n) := Host(b)] == PutHosts(s, HostKeys(names + [n]), b)
  {}

  lemma RemoveHostsNext(s: Store, names: seq<string>, n: string)
    ensures s - HostKeys(names) - {HostKey(n)} == s - HostKeys(names + [n])
    ensures FirstGone(s.Keys, names + [n]) ==
            if FirstGone(s.Keys, names).Name? then FirstGone(s.Keys, names)
            else if HostKey(n) in s - HostKeys(names) then NoName else Name(n)
  {}

  /** The host map of an update so far: the choices made, read from the store. */
  ghost predicate HostMapOk(s: Store, cs: seq<Choice>, hostMap: map<string, BootDataStore>) {
    && NoneAbsent(cs)
    && (forall h :: h in hostMap <==> Use(h) in cs)
    && (forall h | h in hostMap :: HostKey(h) in s && hostMap[h] == AsHost(s[HostKey(h)]))
  }

  lemma HostMapKeys(s: Store, cs: seq<Choice>, hostMap: map<string, BootDataStore>)
    requires HostMapOk(s, cs, hostMap)
    ensures (set h | h in hostMap :: HostKey(h)) == Used(cs)
    ensures Used(cs) == {} <==> hostMap == map[]
  {
    forall h | h in hostMap ensures HostKey(h) in Used(cs) { assert Use(h) in cs; }
    forall c | c in cs && c.Use? ensures c.name in hostMap {}
  }

  /** cs lists the choice for each host, then each MAC, then each NID. */
  predicate ListsChoices(cs: seq<Choice>, sm: Sm, known: set<Key>, bp: Params) {
    && |cs| == |bp.hosts| + |bp.macs| + |bp.nids|
    && (forall i | 0 <= i < |bp.hosts| :: cs[i] == ChooseHost(known, bp.hosts[i]))
    && (forall i | 0 <= i < |bp.macs| :: cs[|bp.hosts| + i] == ChooseMac(sm, known, bp.macs[i]))
    && (forall i | 0 <= i < |bp.nids| :: cs[|bp.hosts| + |bp.macs| + i] == ChooseNid(sm, known, bp.nids[i]))
  }

  lemma ChoicesListed(sm: Sm, known: set<Key>, bp: Params)
    ensures ListsChoices(Choices(sm, known, bp), sm, known, bp)
  {}

  /** The first refusal among the choices. */
  ghost predicate FirstAbsent(cs: seq<Choice>, name: string) {
    exists i :: 0 <= i < |cs| && cs[i] == Absent(name) && NoneAbsent(cs[..i])
  }

  lemma FirstAbsentWithin(cs: seq<Choice>, i: nat, name: string)
    requires i < |cs| && NoneAbsent(cs[..i]) && cs[i] == Absent(name)
    ensures FirstAbsent(cs, name) && !NoneAbsent(cs)
  {}

  lemma PatchHostsNext(hash: string -> string, s: Store, keys: set<Key>, bp: Params, k: Key)
    requires k in s && k !in keys && s[k].Host?
    ensures k in PatchHosts(hash, s, keys, bp) && PatchHosts(hash, s, keys, bp)[k] == s[k]
    ensures PatchHosts(hash, s, keys + {k}, bp) ==
            var kernel, initrd := Ref(hash, Kernel, bp.kernel), Ref(hash, Initrd, bp.initrd);
            PatchHosts(hash, s, keys, bp)[k := Host(PatchedHost(AsHost(s[k]), bp, kernel, initrd))]
  {}

  lemma NotYetPatched(hosts: set<string>, rest: set<string>, h: string)
    requires h in rest && rest <= hosts
    ensures HostKey(h) !in set g | g in hosts && g !in rest :: HostKey(g)
    ensures (set g | g in hosts && g !in rest - {h} :: HostKey(g))
            == (set g | g in hosts && g !in rest :: HostKey(g)) + {HostKey(h)}
  {
    forall g | g in hosts && HostKey(g) == HostKey(h) ensures g == h { HostKeyInjective(g, h); }
  }

  lemma HostMapHosts(hash: string -> string, s: Store, cs: seq<Choice>, hostMap: map<string, BootDataStore>)
    requires Sound(hash, s) && HostMapOk(s, cs, hostMap)
    ensures forall h | h in hostMap :: HostKey(h) in s && s[HostKey(h)] == Host(hostMap[h])
  {}

  /** Interning adds no host entry, so the choices stay. */
  lemma InternKeepsChoices(hash: string -> string, sm: Sm, s: Store, bp: Params)
    requires HashOk(hash)
    ensures Choices(sm, InternBoth(hash, s, bp).Keys, bp) == Choices(sm, s.Keys, bp)
  {
    var t := InternBoth(hash, s, bp);
    ImageKeyScanned(hash, Kernel, bp.kernel);
    ImageKeyScanned(hash, Initrd, bp.initrd);
    KeysApart(ImageKey(hash, Kernel, bp.kernel));
    KeysApart(ImageKey(hash, Initrd, bp.initrd));
    forall name ensures Known(t.Keys, name) <==> Known(s.Keys, name) { assert IsHostKey(HostKey(name)); }
    SameChoices(sm, t.Keys, s.Keys, bp);
  }

  /** The names a lookup tries; a blank alternate is not tried. */
  function LookupOrder(name: string, altName: string, role: string, defaultTag: string): seq<string> {
    [name] + (if altName != "" && altName != name then [altName] else [])
    + (if role != "" then [role] else []) + (if defaultTag != "" then [defaultTag] else [])
  }

  function FirstKnown(known: set<Key>, names: seq<string>): (r: MaybeName)
    ensures r.Name? ==> HostKey(r.name) in known
  {
    if names == [] then NoName
    else if HostKey(names[0]) in known then Name(names[0])
    else FirstKnown(known, names[1..])
  }

  lemma {:induction false} FirstKnownConcat(known: set<Key>, a: seq<string>, b: seq<string>)
    ensures FirstKnown(known, a + b)
            == if FirstKnown(known, a).Name? then FirstKnown(known, a) else FirstKnown(known, b)
  {
    if a == [] {
      assert a + b == b;
    } else {
      assert (a + b)[1..] == a[1..] + b;
      FirstKnownConcat(known, a[1..], b);
    }
  }

  lemma LookupChain(known: set<Key>, name: string, altName: string, role: string, defaultTag: string)
    ensures FirstKnown(known, LookupOrder(name, altName, role, defaultTag)) ==
            if Known(known, name) then Name(name)
            else if altName != "" && altName != name && Known(known, altName) then Name(altName)
            else if role != "" && Known(known, role) then Name(role)
            else if defaultTag != "" && Known(known, defaultTag) then Name(defaultTag)
            else NoName
  {
    var alts := if altName != "" && altName != name then [altName] else [];
    var roles := if role != "" then [role] else [];
    var tags := if defaultTag != "" then [defaultTag] else [];
    FirstKnownConcat(known, [name], alts);
    FirstKnownConcat(known, [name] + alts, roles);
    FirstKnownConcat(known, [name] + alts + roles, tags);
  }

  lemma HostsGoneSound(hash: string -> string, s: Store, names: seq<string>)
    requires Sound(hash, s)
    ensures Sound(hash, s - HostKeys(names))
  {
    HostRemovalMeaning(hash, s, HostKeys(names));
  }

  predicate MemoOk(s: Store, memo: map<Key, ImageData>) {
    forall k | k in memo :: k != "" && MakeKey(k, "") in s && memo[k] == ImageAt(s, k)
  }

  /** The memo maps of one request. */
  class Memo {
    var kernels: map<Key, ImageData>
    var initrds: map<Key, ImageData>

    constructor ()
      ensures kernels == map[] && initrds == map[]
    {
      kernels, initrds := map[], map[];
    }

    /** The memo is a part of the store. */
    predicate Agrees(s: Store)
      reads this
    {
      MemoOk(s, kernels) && MemoOk(s, initrds)
    }
  }

  class KvStore {
    var store: Store
    /** An in-memory store that is asked first and never written. */
    var imageCache: Store
    const hash: string -> string

    /** What every request keeps, whatever the names of the hosts. */
    ghost predicate Valid()
      reads this
    {
      HashOk(hash) && Sound(hash, store) && imageCache == map[]
    }

    constructor (hash: string -> string)
      requires HashOk(hash)
      ensures Valid() && store == map[] && this.hash == hash
    {
      store, imageCache := map[], map[];
      this.hash := hash;
    }

    // ------------------------------------------------------------------- scans

    method GetRange(lo: Key, hi: Key) returns (kvl: seq<(Key, Value)>)
      ensures forall p :: p in kvl <==> p.0 in store && store[p.0] == p.1 && InRange(p.0, lo, hi)
    {
      kvl := [];
      var rest := store.Keys;
      while rest != {}
        invariant rest <= store.Keys
        invariant forall p :: p in kvl <==> p.0 in store && p.0 !in rest && store[p.0] == p.1 && InRange(p.0, lo, hi)
        decreases rest
      {
        var k :| k in rest;
        rest := rest - {k};
        if InRange(k, lo, hi) { kvl := kvl + [(k, store[k])]; }
      }
    }

    method GetImages(ty: ImageType) returns (kvl: seq<(Key, Value)>)
      ensures forall p :: p in kvl <==> p.0 in store && store[p.0] == p.1 && IsImageKey(ty, p.0)
    {
      kvl := GetRange(MakeKey(TypeName(ty), KEY_MIN), MakeKey(TypeName(ty), KEY_MAX));
      assert MakeKey(TypeName(ty), KEY_MIN) == ImagePrefix(ty) + KEY_MIN;
      assert MakeKey(TypeName(ty), KEY_MAX) == ImagePrefix(ty) + KEY_MAX;
      forall k: Key ensures InRange(k, ImagePrefix(ty) + KEY_MIN, ImagePrefix(ty) + KEY_MAX) <==> IsImageKey(ty, k) {
        ScanIff(ImagePrefix(ty), k);
      }
    }

    method GetTags() returns (kvl: seq<(Key, Value)>)
      ensures forall p :: p in kvl <==> p.0 in store && store[p.0] == p.1 && Scanned(PARAMS_PREFIX, p.0)
    {
      kvl := GetRange(PARAMS_PREFIX + KEY_MIN, PARAMS_PREFIX + KEY_MAX);
      forall k: Key
        ensures InRange(k, PARAMS_PREFIX + KEY_MIN, PARAMS_PREFIX + KEY_MAX) <==> Scanned(PARAMS_PREFIX, k)
      {
        ScanIff(PARAMS_PREFIX, k);
      }
    }

    static method ImageLookup(path: string, kvl: seq<(Key, Value)>) returns (key: Key)
      ensures key == "" || exists v :: (key, v) in kvl && AsImage(v).path == path
      ensures key == "" ==> forall p | p in kvl :: p.0 == "" || AsImage(p.1).path != path
    {
      for i := 0 to |kvl|
        invariant forall p | p in kvl[..i] :: p.0 == "" || AsImage(p.1).path != path
      {
        assert kvl[..i + 1] == kvl[..i] + [kvl[i]];
        if AsImage(kvl[i].1).path == path {
          if kvl[i].0 != "" {
            assert (kvl[i].0, kvl[i].1) in kvl;
            return kvl[i].0;
          }
        }
      }
      assert kvl[..|kvl|] == kvl;
      return "";
    }

    /** The key of a stored path; blank when it is not stored. */
    method ImageFind(path: string, ty: ImageType) returns (key: Key)
      requires Valid() && path != ""
      ensures key == if HasImage(hash, store, ty, path) then ImageKey(hash, ty, path) else ""
    {
      var kvl := GetImages(ty);
      key := ImageLookup(path, kvl);
      if key != "" {
        assert ImageOk(hash, store, ty, key);
      } else {
        ImageKeyScanned(hash, ty, path);
        var k := ImageKey(hash, ty, path);
        if k in store { assert (k, store[k]) in kvl; }
      }
    }

    // --------------------------------------------------------------- interning

    method ImageStore(path: string, ty: ImageType) returns (key: Key)
      requires Valid() && path != ""
      modifies `store
      ensures Valid() && store == Intern(hash, old(store), ty, path)
      ensures key == ImageKey(hash, ty, path) != ""
    {
      InternKeepsInterned(hash, store, ty, path);
      ImageKeyScanned(hash, ty, path);
      key := ImageFind(path, ty);
      if key == "" {
        key := MakeKey(TypeName(ty), hash(path));
        store := store[key := Image(ImageData(path, ""))];
      }
    }

    /** Intern the images of a request; blank paths get blank keys. */
    method ImagesStore(bp: Params) returns (kernelId: Key, initrdId: Key)
      requires Valid()
      modifies `store
      ensures Valid() && store == InternBoth(hash, old(store), bp)
      ensures kernelId == Ref(hash, Kernel, bp.kernel) && initrdId == Ref(hash, Initrd, bp.initrd)
      ensures kernelId == "" <==> bp.kernel == ""
      ensures initrdId == "" <==> bp.initrd == ""
    {
      kernelId, initrdId := "", "";
      if bp.kernel != "" { kernelId := ImageStore(bp.kernel, Kernel); }
      if bp.initrd != "" { initrdId := ImageStore(bp.initrd, Initrd); }
    }

    // ------------------------------------------------------------------- Store

    method StoreByHost(hosts: seq<string>, b: BootDataStore)
      modifies `store
      ensures store == PutHosts(old(store), HostKeys(hosts), b)
    {
      ghost var s := store;
      for i := 0 to |hosts|
        invariant store == PutHosts(s, HostKeys(hosts[..i]), b)
      {
        PutHostsNext(s, hosts[..i], b, hosts[i]);
        assert hosts[..i + 1] == hosts[..i] + [hosts[i]];
        store := store[PARAMS_PREFIX + hosts[i] := Host(b)];
      }
      assert hosts[..|hosts|] == hosts;
    }

    method StoreByMac(sm: Sm, macs: seq<string>, b: BootDataStore, ghost names: seq<string>)
      requires |names| == |macs| && forall i | 0 <= i < |macs| :: names[i] == MacName(sm, macs[i])
      modifies `store
      ensures store == PutHosts(old(store), HostKeys(names), b)
    {
      ghost var s := store;
      for i := 0 to |macs|
        invariant store == PutHosts(s, HostKeys(names[..i]), b)
      {
        PutHostsNext(s, names[..i], b, names[i]);
        assert names[..i + 1] == names[..i] + [names[i]];
        if macs[i] in sm.byMac {
          store := store[PARAMS_PREFIX + sm.byMac[macs[i]] := Host(b)];
        } else {
          store := store[PARAMS_PREFIX + macs[i] := Host(b)];
        }
      }
      assert names[..|names|] == names;
    }

    method StoreByNid(sm: Sm, nids: seq<int>, b: BootDataStore, ghost names: seq<string>)
      requires |names| == |nids| && forall i | 0 <= i < |nids| :: names[i] == NidTarget(sm, nids[i])
      modifies `store
      ensures store == PutHosts(old(store), HostKeys(names), b)
    {
      ghost var s := store;
      for i := 0 to |nids|
        invariant store == PutHosts(s, HostKeys(names[..i]), b)
      {
        PutHostsNext(s, names[..i], b, names[i]);
        assert names[..i + 1] == names[..i] + [names[i]];
        if nids[i] in sm.byNid {
          store := store[PARAMS_PREFIX + sm.byNid[nids[i]] := Host(b)];
        } else {
          store := store[PARAMS_PREFIX + NidName(nids[i]) := Host(b)];
        }
      }
      assert names[..|names|] == names;
    }

    /** The parameters of the image named by a request without hosts. */
    method StoreImage(bp: Params, kernelId: Key, initrdId: Key)
      requires Valid()
      requires kernelId == Ref(hash, Kernel, bp.kernel) && initrdId == Ref(hash, Initrd, bp.initrd)
      requires (kernelId == "" <==> bp.kernel == "") && (initrdId == "" <==> bp.initrd == "")
      modifies `store
      ensures store == PutImage(hash, old(store), bp)
    {
      if kernelId != "" {
        store := store[kernelId := Image(ImageData(bp.kernel, bp.params))];
      } else if initrdId != "" {
        store := store[initrdId := Image(ImageData(bp.initrd, bp.params))];
      }
    }

    /** Store boot data for the named hosts, or for an image when none is named;
        the referral token is returned when host entries carry it.  A request
        that names nothing is accepted, and does nothing. */
    method Store(sm: Sm, bp: Params, uuid: string) returns (token: string)
      requires Valid()
      modifies `store
      ensures Valid() && store == Stored(hash, sm, old(store), bp, uuid)
      ensures Interned(hash, old(store)) ==> Interned(hash, store)
      ensures token == if Targets(sm, bp) != [] then uuid else ""
    {
      StoreKeepsInterned(hash, sm, store, bp, uuid);
      var kernelId, initrdId := ImagesStore(bp);
      var bd := BootDataStore(bp.params, kernelId, initrdId, bp.cloudInit, uuid);
      token := uuid;
      if |bp.hosts| > 0 {
        StoreByHost(bp.hosts, bd);
      } else if |bp.macs| > 0 {
        StoreByMac(sm, bp.macs, bd, Targets(sm, bp));
      } else if |bp.nids| > 0 {
        StoreByNid(sm, bp.nids, bd, Targets(sm, bp));
      } else {
        StoreImage(bp, kernelId, initrdId);
        token := "";
      }
    }

    // ------------------------------------------------------------------ Update

    method LookupHost(name: string) returns (found: bool, b: BootDataStore)
      ensures found <==> HostKey(name) in store
      ensures found ==> b == AsHost(store[HostKey(name)])
    {
      var key := PARAMS_PREFIX + name;
      if key in store { return true, AsHost(store[key]); }
      return false, BootDataStore("", "", "", NO_CLOUD_INIT, "");
    }

    method CheckHost(hostMap: map<string, BootDataStore>, h: string)
      returns (hostMap': map<string, BootDataStore>, ok: bool)
      requires forall h | h in hostMap :: HostKey(h) in store && hostMap[h] == AsHost(store[HostKey(h)])
      ensures ok <==> Known(store.Keys, h)
      ensures hostMap' == if ok then hostMap[h := AsHost(store[HostKey(h)])] else hostMap
    {
      hostMap', ok := hostMap, true;
      if h !in hostMap {
        var b;
        ok, b := LookupHost(h);
        if ok { hostMap' := hostMap[h := b]; }
      }
      assert h in hostMap ==> hostMap == hostMap[h := AsHost(store[HostKey(h)])];
    }

    method CheckMac(sm: Sm, hostMap: map<string, BootDataStore>, mac: string)
      returns (hostMap': map<string, BootDataStore>, ok: bool)
      requires forall h | h in hostMap :: HostKey(h) in store && hostMap[h] == AsHost(store[HostKey(h)])
      ensures ok <==> !ChooseMac(sm, store.Keys, mac).Absent?
      ensures var c := ChooseMac(sm, store.Keys, mac);
        hostMap' == if c.Use? then hostMap[c.name := AsHost(store[HostKey(c.name)])] else hostMap
    {
      hostMap', ok := hostMap, true;
      if mac in sm.byMac {
        hostMap', ok := CheckHost(hostMap, sm.byMac[mac]);
        if !ok { hostMap', ok := CheckHost(hostMap, mac); }
      }
    }

    method CheckNid(sm: Sm, hostMap: map<string, BootDataStore>, nid: int)
      returns (hostMap': map<string, BootDataStore>, ok: bool)
      requires forall h | h in hostMap :: HostKey(h) in store && hostMap[h] == AsHost(store[HostKey(h)])
      ensures ok <==> !ChooseNid(sm, store.Keys, nid).Absent?
      ensures var c := ChooseNid(sm, store.Keys, nid);
        hostMap' == if c.Use? then hostMap[c.name := AsHost(store[HostKey(c.name)])] else hostMap
    {
      hostMap', ok := hostMap, true;
      if nid in sm.byNid {
        hostMap', ok := CheckHost(hostMap, sm.byNid[nid]);
        if !ok { hostMap', ok := CheckHost(hostMap, NidName(nid)); }
      }
    }

    method CheckHosts(hostMap0: map<string, BootDataStore>, hosts: seq<string>, ghost cs: seq<Choice>, ghost n: nat)
      returns (hostMap: map<string, BootDataStore>, ok: bool, missing: string)
      requires n + |hosts| <= |cs| && HostMapOk(store, cs[..n], hostMap0)
      requires forall i | 0 <= i < |hosts| :: cs[n + i] == ChooseHost(store.Keys, hosts[i])
      ensures ok ==> HostMapOk(store, cs[..n + |hosts|], hostMap)
      ensures !ok ==> FirstAbsent(cs, missing) && !NoneAbsent(cs)
    {
      hostMap, ok, missing := hostMap0, true, "";
      for i := 0 to |hosts|
        invariant ok && HostMapOk(store, cs[..n + i], hostMap)
      {
        assert cs[..n + i + 1] == cs[..n + i] + [cs[n + i]];
        hostMap, ok := CheckHost(hostMap, hosts[i]);
        if !ok {
          missing := hosts[i];
          FirstAbsentWithin(cs, n + i, missing);
          return;
        }
      }
    }

    method CheckMacs(sm: Sm, hostMap0: map<string, BootDataStore>, macs: seq<string>, ghost cs: seq<Choice>,
                     ghost n: nat)
      returns (hostMap: map<string, BootDataStore>, ok: bool, missing: string)
      requires n + |macs| <= |cs| && HostMapOk(store, cs[..n], hostMap0)
      requires forall i | 0 <= i < |macs| :: cs[n + i] == ChooseMac(sm, store.Keys, macs[i])
      ensures ok ==> HostMapOk(store, cs[..n + |macs|], hostMap)
      ensures !ok ==> FirstAbsent(cs, missing) && !NoneAbsent(cs)
    {
      hide FirstAbsent;
      hostMap, ok, missing := hostMap0, true, "";
      for i := 0 to |macs|
        invariant ok && HostMapOk(store, cs[..n + i], hostMap)
      {
        assert cs[..n + i + 1] == cs[..n + i] + [cs[n + i]];
        hostMap, ok := CheckMac(sm, hostMap, macs[i]);
        if !ok {
          missing := macs[i];
          FirstAbsentWithin(cs, n + i, missing);
          return;
        }
      }
    }

    method CheckNids(sm: Sm, hostMap0: map<string, BootDataStore>, nids: seq<int>, ghost cs: seq<Choice>, ghost n: nat)
      returns (hostMap: map<string, BootDataStore>, ok: bool, missing: string)
      requires n + |nids| <= |cs| && HostMapOk(store, cs[..n], hostMap0)
      requires forall i | 0 <= i < |nids| :: cs[n + i] == ChooseNid(sm, store.Keys, nids[i])
      ensures ok ==> HostMapOk(store, cs[..n + |nids|], hostMap)
      ensures !ok ==> FirstAbsent(cs, missing) && !NoneAbsent(cs)
    {
      hostMap, ok, missing := hostMap0, true, "";
      for i := 0 to |nids|
        invariant ok && HostMapOk(store, cs[..n + i], hostMap)
      {
        assert cs[..n + i + 1] == cs[..n + i] + [cs[n + i]];
        hostMap, ok := CheckNid(sm, hostMap, nids[i]);
        if !ok {
          missing := NidName(nids[i]);
          FirstAbsentWithin(cs, n + i, missing);
          return;
        }
      }
    }

    /** Read the entries to update, stopping at the first that is missing. */
    method CheckAll(sm: Sm, bp: Params) returns (hostMap: map<string, BootDataStore>, ok: bool, missing: string)
      ensures ok ==> HostMapOk(store, Choices(sm, store.Keys, bp), hostMap)
      ensures !ok ==> FirstAbsent(Choices(sm, store.Keys, bp), missing) && !NoneAbsent(Choices(sm, store.Keys, bp))
    {
      ChoicesListed(sm, store.Keys, bp);
      hostMap, ok, missing := CheckListed(sm, bp, Choices(sm, store.Keys, bp));
    }

    method CheckListed(sm: Sm, bp: Params, ghost cs: seq<Choice>)
      returns (hostMap: map<string, BootDataStore>, ok: bool, missing: string)
      requires ListsChoices(cs, sm, store.Keys, bp)
      ensures ok ==> HostMapOk(store, cs, hostMap)
      ensures !ok ==> FirstAbsent(cs, missing) && !NoneAbsent(cs)
    {
      assert cs[..0] == [] && cs[..|cs|] == cs;
      hostMap, ok, missing := CheckHosts(map[], bp.hosts, cs, 0);
      if !ok { return; }
      hostMap, ok, missing := CheckMacs(sm, hostMap, bp.macs, cs, |bp.hosts|);
      if !ok { return; }
      hostMap, ok, missing := CheckNids(sm, hostMap, bp.nids, cs, |bp.hosts| + |bp.macs|);
    }

    /** The patched form of one entry, and whether it has to be written back. */
    static method PatchEntry(b: BootDataStore, bp: Params, kernelId: Key, initrdId: Key)
      returns (bd: BootDataStore, updated: bool)
      ensures bd == PatchedHost(b, bp, kernelId, initrdId)
      ensures updated <==> bd != b
    {
      bd, updated := b, false;
      if bp.params != "" && bp.params != bd.params { bd, updated := bd.(params := bp.params), true; }
      if bp.kernel != "" && kernelId != bd.kernel { bd, updated := bd.(kernel := kernelId), true; }
      if bp.initrd != "" && initrdId != bd.initrd { bd, updated := bd.(initrd := initrdId), true; }
      var cloudInit, changed := UpdateCloudInit(bd.cloudInit, bp.cloudInit);
      bd := bd.(cloudInit := cloudInit);
      if changed { updated := true; }
    }

    /** Write back the entries that the patch changes, in any order. */
    method PatchAll(hostMap: map<string, BootDataStore>, bp: Params, kernelId: Key, initrdId: Key)
      requires forall h | h in hostMap :: HostKey(h) in store && store[HostKey(h)] == Host(hostMap[h])
      requires kernelId == Ref(hash, Kernel, bp.kernel) && initrdId == Ref(hash, Initrd, bp.initrd)
      modifies `store
      ensures store == PatchHosts(hash, old(store), set h | h in hostMap :: HostKey(h), bp)
    {
      ghost var s, done := store, {};
      assert PatchHosts(hash, s, {}, bp) == s;
      var rest := hostMap.Keys;
      while rest != {}
        invariant rest <= hostMap.Keys && done == set h | h in hostMap && h !in rest :: HostKey(h)
        invariant store == PatchHosts(hash, s, done, bp)
        decreases rest
      {
        var h :| h in rest;
        NotYetPatched(hostMap.Keys, rest, h);
        PatchHostsNext(hash, s, done, bp, HostKey(h));
        done := done + {HostKey(h)};
        rest := rest - {h};
        var bd, updated := PatchEntry(hostMap[h], bp, kernelId, initrdId);
        if updated { store := store[PARAMS_PREFIX + h := Host(bd)]; }
      }
      assert done == set h | h in hostMap :: HostKey(h);
    }

    /** Patch the chosen host entries; refused at the first that is missing,
        with the images of the request interned all the same. */
    method Update(sm: Sm, bp: Params) returns (ok: bool, missing: string)
      requires Valid()
      modifies `store
      ensures Valid() && store == UpdatedStore(hash, sm, old(store), bp)
      ensures Interned(hash, old(store)) ==> Interned(hash, store)
      ensures ok <==> NoneAbsent(Choices(sm, old(store).Keys, bp))
      ensures !ok ==> FirstAbsent(Choices(sm, old(store).Keys, bp), missing)
    {
      hide Sound, Interned, NoneAbsent, PatchHosts, PutImage;
      UpdateKeepsInterned(hash, sm, store, bp);
      InternKeepsChoices(hash, sm, store, bp);
      var kernelId, initrdId := ImagesStore(bp);
      var hostMap;
      hostMap, ok, missing := CheckAll(sm, bp);
      if !ok { return; }
      HostMapKeys(store, Choices(sm, store.Keys, bp), hostMap);
      HostMapHosts(hash, store, Choices(sm, store.Keys, bp), hostMap);
      if |hostMap| > 0 {
        PatchAll(hostMap, bp, kernelId, initrdId);
      } else {
        StoreImage(bp, kernelId, initrdId);
      }
    }

    // ------------------------------------------------------------------ Remove

    method RemoveHost(h: string) returns (ok: bool)
      modifies `store
      ensures ok <==> HostKey(h) in old(store)
      ensures store == old(store) - {HostKey(h)}
    {
      var key := PARAMS_PREFIX + h;
      ok := key in store;
      if ok {
        store := store - {key};
      }
    }

    /** Delete the entries of these names, going on after one that is gone. */
    method RemoveHosts(names: seq<string>) returns (err: MaybeName)
      modifies `store
      ensures store == old(store) - HostKeys(names)
      ensures err == FirstGone(old(store).Keys, names)
    {
      ghost var s := store;
      err := NoName;
      assert names[..0] == [];
      for i := 0 to |names|
        invariant store == s - HostKeys(names[..i]) && err == FirstGone(s.Keys, names[..i])
      {
        RemoveHostsNext(s, names[..i], names[i]);
        assert names[..i + 1] == names[..i] + [names[i]];
        var ok := RemoveHost(names[i]);
        if err == NoName && !ok { err := Name(names[i]); }
      }
      assert names[..|names|] == names;
    }

    static method MacsToRemove(sm: Sm, macs: seq<string>) returns (names: seq<string>)
      ensures names == KnownMacs(sm, macs)
    {
      names := [];
      for i := 0 to |macs|
        invariant names == KnownMacs(sm, macs[..i])
      {
        assert macs[..i + 1][..i] == macs[..i];
        if macs[i] in sm.byMac { names := names + [sm.byMac[macs[i]]]; }
      }
      assert macs[..|macs|] == macs;
    }

    /** The names a request asks to remove: hosts, MACs the state manager knows,
        and NIDs, by their default names when it does not. */
    static method NamesToRemove(sm: Sm, bp: Params) returns (names: seq<string>)
      ensures names == RemovedNames(sm, bp)
    {
      var macs := MacsToRemove(sm, bp.macs);
      var nids := [];
      for i := 0 to |bp.nids|
        invariant |nids| == i && forall j | 0 <= j < i :: nids[j] == NidTarget(sm, bp.nids[j])
      {
        if bp.nids[i] in sm.byNid {
          nids := nids + [sm.byNid[bp.nids[i]]];
        } else {
          nids := nids + [NidName(bp.nids[i])];
        }
      }
      names := bp.hosts + macs + nids;
    }

    /** Clear the references to a deleted image, entry by entry. */
    method ClearReferences(kvl: seq<(Key, Value)>, ty: ImageType, key: Key)
      requires forall p :: p in kvl <==> p.0 in store && store[p.0] == p.1 && Scanned(PARAMS_PREFIX, p.0)
      modifies `store
      ensures store == map k | k in old(store) ::
                         if Scanned(PARAMS_PREFIX, k) then Cleared(ty, key, old(store)[k]) else old(store)[k]
    {
      ghost var s := store;
      for i := 0 to |kvl|
        invariant store.Keys == s.Keys
        invariant forall k | k in s :: store[k] == if (k, s[k]) in kvl[..i] then Cleared(ty, key, s[k]) else s[k]
      {
        assert kvl[..i + 1] == kvl[..i] + [kvl[i]] && kvl[i] in kvl;
        var bds := AsHost(kvl[i].1);
        if ty == Kernel && bds.kernel == key {
          store := store[kvl[i].0 := Host(bds.(kernel := ""))];
        } else if ty == Initrd && bds.initrd == key {
          store := store[kvl[i].0 := Host(bds.(initrd := ""))];
        }
      }
      assert kvl[..|kvl|] == kvl;
    }

    /** Delete the image first, then clear the references to it. */
    method DeleteImage(key: Key, path: string, ty: ImageType)
      requires key == ImageKey(hash, ty, path) && HasImage(hash, store, ty, path) && imageCache == map[]
      modifies `store, `imageCache
      ensures store == ImageRemoved(hash, old(store), ty, path) && imageCache == map[]
    {
      store := store - {key};
      imageCache := imageCache - {key};
      var kvl := GetTags();
      ClearReferences(kvl, ty, key);
    }

    /** Delete the image of a path, if it is stored, and every reference to it
        that the scan finds. */
    method RemoveImage(path: string, ty: ImageType)
      requires Valid()
      modifies `store, `imageCache
      ensures Valid() && store == ImageRemoved(hash, old(store), ty, path)
    {
      RemovalKeepsSound(hash, store, ty, path);
      if path != "" {
        ImageKeyScanned(hash, ty, path);
        var key := ImageFind(path, ty);
        if key != "" { DeleteImage(key, path, ty); }
      }
    }

    /** Remove host entries and images.  Every step is taken, and the first host
        that was not there is reported.  References stay whole exactly when the
        scan for host entries overlooks none. */
    method Remove(sm: Sm, bp: Params) returns (err: MaybeName)
      requires Valid()
      modifies `store, `imageCache
      ensures Valid() && store == RemovedStore(hash, sm, old(store), bp)
      ensures err == FirstGone(old(store).Keys, RemovedNames(sm, bp))
      ensures Interned(hash, old(store)) ==>
                (Interned(hash, store) <==> !RemoveOverlooks(hash, sm, old(store), bp))
    {
      hide Sound, Interned, ImageRemoved, RemoveOverlooks, RemovedNames, FirstGone;
      if Interned(hash, store) { RemoveInternedIff(hash, sm, store, bp); }
      HostsGoneSound(hash, store, RemovedNames(sm, bp));
      var names := NamesToRemove(sm, bp);
      err := RemoveHosts(names);
      RemoveImage(bp.kernel, Kernel);
      RemoveImage(bp.initrd, Initrd);
    }

    // ------------------------------------------------------------- conversions

    method GetImage(ref: Key) returns (found: bool, data: ImageData)
      requires imageCache == map[] && ref != ""
      ensures found <==> MakeKey(ref, "") in store
      ensures data == ImageAt(store, ref)
    {
      var key := MakeKey(ref, "");
      var all := store + imageCache;
      found, data := key in all, NO_IMAGE;
      if found { data := AsImage(all[key]); }
    }

    method BdConvert(bds: BootDataStore) returns (r: BootData)
      requires Valid()
      ensures r == Converted(store, bds)
    {
      r := BootData(bds.params, NO_IMAGE, NO_IMAGE, bds.cloudInit, bds.referralToken);
      if bds.kernel != "" {
        var found, data := GetImage(bds.kernel);
        if found { r := r.(kernel := data); }
      }
      if bds.initrd != "" {
        var found, data := GetImage(bds.initrd);
        if found { r := r.(initrd := data); }
      }
    }

    /** The image of a reference, from the memo or read and remembered. */
    method GetImageWithMemo(ref: Key, memo0: map<Key, ImageData>) returns (data: ImageData, memo: map<Key, ImageData>)
      requires Valid() && ref != "" && MemoOk(store, memo0)
      ensures data == ImageAt(store, ref) && MemoOk(store, memo)
      ensures memo0.Keys <= memo.Keys <= memo0.Keys + {ref}
    {
      data, memo := NO_IMAGE, memo0;
      if ref in memo0 {
        data := memo0[ref];
      } else {
        var found, imdata := GetImage(ref);
        if found {
          data := imdata;
          memo := memo[ref := imdata];
        }
      }
    }

    /** The same conversion with memo maps; it leaves the referral token out. */
    method BdConvertUsingImageCache(bds: BootDataStore, memo: Memo) returns (r: BootData)
      requires Valid() && memo.Agrees(store)
      modifies memo
      ensures memo.Agrees(store)
      ensures r == Converted(store, bds).(referralToken := "")
      ensures old(memo.kernels).Keys <= memo.kernels.Keys && old(memo.initrds).Keys <= memo.initrds.Keys
    {
      r := BootData(bds.params, NO_IMAGE, NO_IMAGE, bds.cloudInit, "");
      if bds.kernel != "" {
        var data;
        data, memo.kernels := GetImageWithMemo(bds.kernel, memo.kernels);
        r := r.(kernel := data);
      }
      if bds.initrd != "" {
        var data;
        data, memo.initrds := GetImageWithMemo(bds.initrd, memo.initrds);
        r := r.(initrd := data);
      }
    }

    /** A request that converts many entries with one memo gets for each what
        the conversion without a memo returns. */
    method ConvertAll(entries: seq<BootDataStore>) returns (rs: seq<BootData>)
      requires Valid()
      ensures |rs| == |entries|
      ensures forall i | 0 <= i < |entries| :: rs[i] == Converted(store, entries[i]).(referralToken := "")
    {
      rs := [];
      var memo := new Memo();
      for i := 0 to |entries|
        invariant fresh(memo) && memo.Agrees(store) && |rs| == i
        invariant forall j | 0 <= j < i :: rs[j] == Converted(store, entries[j]).(referralToken := "")
      {
        var r := BdConvertUsingImageCache(entries[i], memo);
        rs := rs + [r];
      }
    }

    /** Look a host up under its name, an alternate name, its role and the
        default tag, in this order. */
    method Lookup(name: string, altName: string, role: string, defaultTag: string) returns (r: BootData)
      requires Valid()
      ensures r == match FirstKnown(store.Keys, LookupOrder(name, altName, role, defaultTag))
        case NoName => BootData("", NO_IMAGE, NO_IMAGE, NO_CLOUD_INIT, "")
        case Name(n) => Converted(store, AsHost(store[HostKey(n)]))
    {
      LookupChain(store.Keys, name, altName, role, defaultTag);
      var found, b := LookupHost(name);
      if !found && name != altName && altName != "" { found, b := LookupHost(altName); }
      if !found && role != "" { found, b := LookupHost(role); }
      if !found && defaultTag != "" { found, b := LookupHost(defaultTag); }
      r := BootData("", NO_IMAGE, NO_IMAGE, NO_CLOUD_INIT, "");
      if found {
        r := BdConvert(b);
      }
    }
  }
}
