/** What requests to the key-value store do to kernels and initrds, and which
    name a refused update or an incomplete remove reports. */
module KvImageLaws {
  import opened KeyRanges
  import opened KvLaws
  import opened KvRemoval
  import opened KvRequestLaws
  import opened KvSpec
  import KvStore

  // ------------------------------------------------------------------- writing

  /** The image is there; its parameters are those given, or else the ones it
      had, or else blank. */
  predicate ImageThere(s: Store, t: Store, k: Key, path: string, given: bool, params: string) {
    path != "" ==>
      k in t && t[k] == Image(ImageData(path, if given then params else if k in s then AsImage(s[k]).params else ""))
  }

  predicate SameAt(s: Store, t: Store, k: Key) {
    (k in t <==> k in s) && (k in t && k in s ==> t[k] == s[k])
  }

  /** The images of the request are there, and its kernel, or else its initrd, is
      given the parameters if these are not for hosts; other images stay. */
  ghost predicate ImagesWritten(s: Store, t: Store, kernel: Key, initrd: Key, bp: Params, given: bool) {
    && ImageThere(s, t, kernel, bp.kernel, given, bp.params)
    && ImageThere(s, t, initrd, bp.initrd, given && bp.kernel == "", bp.params)
    && forall k | !IsHostKey(k) && !(bp.kernel != "" && k == kernel) && !(bp.initrd != "" && k == initrd) ::
         SameAt(s, t, k)
  }

  lemma ImageKeysApart(hash: string -> string, bp: Params)
    requires HashOk(hash)
    ensures var kernel, initrd := ImageKey(hash, Kernel, bp.kernel), ImageKey(hash, Initrd, bp.initrd);
      kernel != initrd && !IsHostKey(kernel) && !IsHostKey(initrd)
  {
    ImageKeyScanned(hash, Kernel, bp.kernel);
    ImageKeyScanned(hash, Initrd, bp.initrd);
    KeysApart(ImageKey(hash, Kernel, bp.kernel));
    KeysApart(ImageKey(hash, Initrd, bp.initrd));
  }

  lemma InternWritten(hash: string -> string, s: Store, bp: Params)
    requires HashOk(hash) && ImagesInterned(hash, s) && NoClashes(hash, s, bp)
    ensures ImagesWritten(s, InternBoth(hash, s, bp), ImageKey(hash, Kernel, bp.kernel),
                          ImageKey(hash, Initrd, bp.initrd), bp, false)
  {
    hide ImageKey, IsHostKey, HashOk, ImagesInterned;
    ImageKeysApart(hash, bp);
    OneImage(hash, s, Kernel, bp.kernel);
    OneImage(hash, s, Initrd, bp.initrd);
  }

  lemma OneImage(hash: string -> string, s: Store, ty: ImageType, path: string)
    requires HashOk(hash) && ImagesInterned(hash, s)
    ensures var k := ImageKey(hash, ty, path);
      k in s && AsImage(s[k]).path == path ==> s[k] == Image(ImageData(path, AsImage(s[k]).params))
  {
    ImageKeyScanned(hash, ty, path);
    var k := ImageKey(hash, ty, path);
    if k in s { assert ImageOk(hash, s, ty, k); }
  }

  lemma PutImageWritten(hash: string -> string, s: Store, bp: Params)
    requires HashOk(hash) && ImagesInterned(hash, s) && NoClashes(hash, s, bp)
    ensures ImagesWritten(s, PutImage(hash, InternBoth(hash, s, bp), bp), ImageKey(hash, Kernel, bp.kernel),
                          ImageKey(hash, Initrd, bp.initrd), bp, true)
  {
    hide ImageKey, IsHostKey, HashOk, ImagesInterned, InternBoth;
    ImageKeysApart(hash, bp);
    InternWritten(hash, s, bp);
  }

  /** Only host entries differ. */
  lemma WrittenBesides(s: Store, t: Store, u: Store, kernel: Key, initrd: Key, bp: Params, given: bool)
    requires ImagesWritten(s, t, kernel, initrd, bp, given) && !IsHostKey(kernel) && !IsHostKey(initrd)
    requires forall k | !IsHostKey(k) :: SameAt(t, u, k)
    ensures ImagesWritten(s, u, kernel, initrd, bp, given)
  {
    hide IsHostKey;
    assert SameAt(t, u, kernel) && SameAt(t, u, initrd);
  }

  predicate NamesNone(bp: Params) { bp.hosts == [] && bp.macs == [] && bp.nids == [] }

  /** A store request gives the parameters to an image exactly when it names no
      host, MAC or NID. */
  lemma StoreImagesInPlainWords(hash: string -> string, sm: Sm, s: Store, bp: Params, token: string)
    requires HashOk(hash) && ImagesInterned(hash, s) && NoClashes(hash, s, bp)
    ensures ImagesWritten(s, Stored(hash, sm, s, bp, token), "/kernel/" + hash(bp.kernel), "/initrd/" + hash(bp.initrd),
                          bp, NamesNone(bp))
  {
    hide NoClashes, ImagesInterned, ImagesWritten, InternBoth, PutImage, ImageKey;
    var t := Stored(hash, sm, s, bp, token);
    WhereThingsAre(hash, "", bp.kernel);
    WhereThingsAre(hash, "", bp.initrd);
    ImageKeysApart(hash, bp);
    var kernel, initrd := ImageKey(hash, Kernel, bp.kernel), ImageKey(hash, Initrd, bp.initrd);
    if NamesNone(bp) {
      PutImageWritten(hash, s, bp);
    } else {
      InternWritten(hash, s, bp);
      WrittenBesides(s, InternBoth(hash, s, bp), t, kernel, initrd, bp, false);
    }
  }

  /** An update does so exactly when it is about no host entry, whether it named
      MACs and NIDs that the state manager does not know or nothing. */
  lemma UpdateImagesInPlainWords(hash: string -> string, sm: Sm, s: Store, bp: Params)
    requires HashOk(hash) && ImagesInterned(hash, s) && NoClashes(hash, s, bp)
    ensures ImagesWritten(s, UpdatedStore(hash, sm, s, bp), "/kernel/" + hash(bp.kernel), "/initrd/" + hash(bp.initrd),
                          bp, forall name :: !UpdateNames(sm, s, bp, name))
  {
    hide NoClashes, ImagesInterned, ImagesWritten, InternBoth, PutImage, Choices, NoneAbsent, UpdateNames, ImageKey;
    WhereThingsAre(hash, "", bp.kernel);
    WhereThingsAre(hash, "", bp.initrd);
    ImageKeysApart(hash, bp);
    var kernel, initrd := ImageKey(hash, Kernel, bp.kernel), ImageKey(hash, Initrd, bp.initrd);
    KvStore.InternKeepsChoices(hash, sm, s, bp);
    AcceptedIff(sm, s, bp);
    NoneUsedIff(sm, s, bp);
    var s1, cs := InternBoth(hash, s, bp), Choices(sm, s.Keys, bp);
    if NoneAbsent(cs) && Used(cs) == {} {
      PutImageWritten(hash, s, bp);
    } else {
      InternWritten(hash, s, bp);
      UsedAreHosts(cs);
      WrittenBesides(s, s1, UpdatedStore(hash, sm, s, bp), kernel, initrd, bp, false);
    }
  }

  lemma UsedAreHosts(cs: seq<Choice>)
    ensures forall k | k in Used(cs) :: IsHostKey(k)
  {}

  lemma NoneUsedIff(sm: Sm, s: Store, bp: Params)
    ensures (NoneAbsent(Choices(sm, s.Keys, bp)) && Used(Choices(sm, s.Keys, bp)) == {})
            <==> forall name :: !UpdateNames(sm, s, bp, name)
  {
    hide Choices, UpdateNames;
    var cs := Choices(sm, s.Keys, bp);
    AcceptedIff(sm, s, bp);
    if AllHere(sm, s, bp) {
      forall name ensures HostKey(name) in Used(cs) <==> UpdateNames(sm, s, bp, name) { UsedIff(sm, s, bp, name); }
      forall c | c in cs && c.Use? ensures HostKey(c.name) in Used(cs) {}
    }
  }

  // ------------------------------------------------------------------ removing

  /** A remove takes out the two images of the request and no other. */
  lemma RemoveImagesInPlainWords(hash: string -> string, sm: Sm, s: Store, bp: Params, path: string)
    requires HashOk(hash) && ImagesInterned(hash, s)
    ensures var t, k := RemovedStore(hash, sm, s, bp), "/kernel/" + hash(path);
      && (k in t <==> k in s && !(s[k].Image? && s[k].data.path == bp.kernel))
      && (k in t && k in s ==> t[k] == s[k])
    ensures var t, k := RemovedStore(hash, sm, s, bp), "/initrd/" + hash(path);
      && (k in t <==> k in s && !(s[k].Image? && s[k].data.path == bp.initrd))
      && (k in t && k in s ==> t[k] == s[k])
  {
    hide ImageRemoved, RemovedNames, ImageKey, ImagesInterned;
    WhereThingsAre(hash, "", path);
    var s1 := s - HostKeys(RemovedNames(sm, bp));
    ImagesBesideHosts(hash, s, RemovedNames(sm, bp), Kernel, path);
    ImagesBesideHosts(hash, s, RemovedNames(sm, bp), Initrd, path);
    RemovalKeepsImages(hash, s1, Kernel, bp.kernel);
    var s2 := ImageRemoved(hash, s1, Kernel, bp.kernel);
    OneImageRemoved(hash, s1, Kernel, bp.kernel, Kernel, path);
    OneImageRemoved(hash, s1, Kernel, bp.kernel, Initrd, path);
    OneImageRemoved(hash, s2, Initrd, bp.initrd, Kernel, path);
    OneImageRemoved(hash, s2, Initrd, bp.initrd, Initrd, path);
  }

  lemma ImagesBesideHosts(hash: string -> string, s: Store, names: seq<string>, ty: ImageType, path: string)
    requires HashOk(hash) && ImagesInterned(hash, s)
    ensures ImagesInterned(hash, s - HostKeys(names)) && SameAt(s, s - HostKeys(names), ImageKey(hash, ty, path))
  {
    var t := s - HostKeys(names);
    forall ty', k | k in s && IsImageKey(ty', k) ensures ImageOk(hash, s, ty', k) && k in t {
      KeysApart(k);
    }
    ImageKeyScanned(hash, ty, path);
    KeysApart(ImageKey(hash, ty, path));
  }

  lemma OneImageRemoved(hash: string -> string, s: Store, ty: ImageType, path: string, rty: ImageType, p: string)
    requires HashOk(hash) && ImagesInterned(hash, s)
    ensures var t, k := ImageRemoved(hash, s, ty, path), ImageKey(hash, rty, p);
      && (k in t <==> k in s && !(rty == ty && s[k].Image? && s[k].data.path == path))
      && (k in t && k in s ==> t[k] == s[k])
  {
    var k := ImageKey(hash, rty, p);
    ImageKeyScanned(hash, rty, p);
    ImageKeyScanned(hash, ty, path);
    KeysApart(k);
    if k in s { assert ImageOk(hash, s, rty, k); }
  }

  /** A host entry that stays keeps everything but its references to these. */
  lemma RemoveEntriesInPlainWords(hash: string -> string, sm: Sm, s: Store, bp: Params, name: string)
    requires HashOk(hash) && Sound(hash, s) && "/params/" + name in s && !RemoveNames(sm, bp, name)
    ensures var k, hosts, hosts' := "/params/" + name, HostsOf(s), HostsOf(RemovedStore(hash, sm, s, bp));
      && k in hosts && k in hosts'
      && hosts'[k].params == hosts[k].params && hosts'[k].cloudInit == hosts[k].cloudInit
      && hosts'[k].referralToken == hosts[k].referralToken
      && hosts'[k].kernel == (if hosts[k].kernel == bp.kernel then "" else hosts[k].kernel)
      && hosts'[k].initrd == (if hosts[k].initrd == bp.initrd then "" else hosts[k].initrd)
  {
    hide RemovedStore, HostsOf, ImagesOf, Sound, RemoveNames, RemovedNames;
    RemoveRefines(hash, sm, s, bp);
    HostsOfHas(s, name);
    RemovedNamesIff(sm, bp, name);
    HostKeysIff(RemovedNames(sm, bp), name);
    IsHost(name);
  }

  // ----------------------------------------------------------------- reporting

  /** The first of the hosts without an entry. */
  predicate FirstMissing(s: Store, hosts: seq<string>, name: string) {
    exists i :: 0 <= i < |hosts| && hosts[i] == name && !Has(s, name) && forall j | 0 <= j < i :: Has(s, hosts[j])
  }

  /** A refused update reports the first of its hosts that has no entry; if all
      have one, the MAC, else the name of the NID, that has none either. */
  lemma UpdateReports(sm: Sm, s: Store, bp: Params, name: string)
    requires KvStore.FirstAbsent(Choices(sm, s.Keys, bp), name)
    ensures !Has(s, name) && UpdateNames(sm, s, bp, name)
    ensures (exists h :: h in bp.hosts && !Has(s, h)) ==> FirstMissing(s, bp.hosts, name)
    ensures (forall h | h in bp.hosts :: Has(s, h))
              && (exists m :: m in bp.macs && m in sm.byMac && !Has(s, sm.byMac[m]) && !Has(s, m)) ==>
              name in bp.macs
  {
    ReportedHost(sm, s, bp, name);
    if forall h | h in bp.hosts :: Has(s, h) { ReportedMac(sm, s, bp, name); }
    var i :| 0 <= i < |Choices(sm, s.Keys, bp)| && Choices(sm, s.Keys, bp)[i] == Absent(name);
    assert Absent(name) in Choices(sm, s.Keys, bp);
    ChosenIff(sm, s, bp, name);
  }

  lemma ReportedHost(sm: Sm, s: Store, bp: Params, name: string)
    requires KvStore.FirstAbsent(Choices(sm, s.Keys, bp), name)
    ensures (exists h :: h in bp.hosts && !Has(s, h)) ==> FirstMissing(s, bp.hosts, name)
  {
    hide ChooseMac, ChooseNid;
    var cs := Choices(sm, s.Keys, bp);
    var i :| 0 <= i < |cs| && cs[i] == Absent(name) && NoneAbsent(cs[..i]);
    if h :| h in bp.hosts && !Has(s, h) {
      var j :| 0 <= j < |bp.hosts| && bp.hosts[j] == h;
      IsHost(h);
      NotBefore(cs, i, j);
      IsHost(name);
      forall j | 0 <= j < i ensures Has(s, bp.hosts[j]) {
        IsHost(bp.hosts[j]);
        assert cs[j] in cs[..i];
      }
    }
  }

  /** An absent choice is not before the first one. */
  lemma NotBefore(cs: seq<Choice>, i: nat, j: nat)
    requires i <= |cs| && NoneAbsent(cs[..i]) && j < |cs| && cs[j].Absent?
    ensures i <= j
  {
    forall k | 0 <= k < i ensures !cs[k].Absent? { assert cs[k] in cs[..i]; }
  }

  lemma MacChoice(sm: Sm, s: Store, bp: Params, j: nat)
    requires |bp.hosts| <= j < |bp.hosts| + |bp.macs|
    ensures j < |Choices(sm, s.Keys, bp)|
    ensures var m, c := bp.macs[j - |bp.hosts|], Choices(sm, s.Keys, bp)[j];
      && (m in sm.byMac && !Has(s, sm.byMac[m]) && !Has(s, m) ==> c == Absent(m))
      && (c.Absent? ==> c.name == m)
  {
    hide ChooseHost, ChooseNid;
    var m := bp.macs[j - |bp.hosts|];
    IsHost(m);
    if m in sm.byMac { IsHost(sm.byMac[m]); }
    assert Choices(sm, s.Keys, bp)[j] == ChooseMac(sm, s.Keys, m);
    MacChosenAbsent(sm, s, m);
  }

  lemma MacChosenAbsent(sm: Sm, s: Store, m: string)
    ensures var c := ChooseMac(sm, s.Keys, m);
      && (m in sm.byMac && !Has(s, sm.byMac[m]) && !Has(s, m) ==> c == Absent(m))
      && (c.Absent? ==> c.name == m)
  {
    IsHost(m);
    if m in sm.byMac { IsHost(sm.byMac[m]); }
  }

  lemma ReportedMac(sm: Sm, s: Store, bp: Params, name: string)
    requires KvStore.FirstAbsent(Choices(sm, s.Keys, bp), name) && forall h | h in bp.hosts :: Has(s, h)
    ensures (exists m :: m in bp.macs && m in sm.byMac && !Has(s, sm.byMac[m]) && !Has(s, m)) ==> name in bp.macs
  {
    var cs, n := Choices(sm, s.Keys, bp), |bp.hosts|;
    hide Choices, Has;
    var i :| 0 <= i < |cs| && cs[i] == Absent(name) && NoneAbsent(cs[..i]);
    if m :| m in bp.macs && m in sm.byMac && !Has(s, sm.byMac[m]) && !Has(s, m) {
      var j :| 0 <= j < |bp.macs| && bp.macs[j] == m;
      MacChoice(sm, s, bp, n + j);
      NotBefore(cs, i, n + j);
      if i < n { HostChoice(sm, s, bp, i); } else { MacChoice(sm, s, bp, i); }
    }
  }

  lemma HostChoice(sm: Sm, s: Store, bp: Params, i: nat)
    requires i < |bp.hosts| && Has(s, bp.hosts[i])
    ensures i < |Choices(sm, s.Keys, bp)| && !Choices(sm, s.Keys, bp)[i].Absent?
  {
    IsHost(bp.hosts[i]);
  }

  ghost predicate OfKnownMac(sm: Sm, macs: seq<string>, name: string) {
    exists m :: m in macs && m in sm.byMac && sm.byMac[m] == name
  }

  /** A remove goes through hosts, then MACs, then NIDs. */
  lemma RemoveOrder(sm: Sm, bp: Params)
    ensures var names, n := RemovedNames(sm, bp), |RemovedNames(sm, bp)| - |bp.nids|;
      && |bp.hosts| <= n <= |names| && names[..|bp.hosts|] == bp.hosts
      && (forall i | |bp.hosts| <= i < n :: OfKnownMac(sm, bp.macs, names[i]))
      && (forall i | 0 <= i < |bp.nids| :: NamedByNid(sm, [bp.nids[i]], names[n + i]))
  {
    var names, macs := RemovedNames(sm, bp), KnownMacs(sm, bp.macs);
    var n := |bp.hosts| + |macs|;
    assert |names| == n + |bp.nids|;
    forall i | |bp.hosts| <= i < n ensures OfKnownMac(sm, bp.macs, names[i]) {
      assert names[i] == macs[i - |bp.hosts|];
      KnownMacsIff(sm, bp.macs, names[i]);
    }
    forall i | 0 <= i < |bp.nids| ensures NamedByNid(sm, [bp.nids[i]], names[n + i]) {
      var nid := bp.nids[i];
      assert names[n + i] == NidTarget(sm, nid);
      NidNamed(nid);
      assert nid in [nid];
    }
  }
}
