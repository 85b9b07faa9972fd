/** Interning is invisible: every operation of the key-value backend does to
    the stored keys what its simple counterpart does to host entries with
    image paths, as long as no two paths in use share a hash. */
module KvLaws {
  import opened Common
  import opened KeyRanges
  import opened KvSpec

  function Other(ty: ImageType): ImageType { if ty == Kernel then Initrd else Kernel }

  /** The key of the path does not hold another path. */
  predicate NoClash(hash: string -> string, s: Store, ty: ImageType, path: string) {
    path == "" || ImageKey(hash, ty, path) !in s || AsImage(s[ImageKey(hash, ty, path)]).path == path
  }

  /** Same images in both stores. */
  ghost predicate SameImages(s: Store, t: Store, ty: ImageType) {
    forall k | IsImageKey(ty, k) :: (k in s <==> k in t) && (k in s && k in t ==> s[k] == t[k])
  }

  lemma SameImagesOf(hash: string -> string, s: Store, t: Store, ty: ImageType)
    requires ImagesInterned(hash, s) && ImagesInterned(hash, t) && SameImages(s, t, ty)
    ensures ImagesOf(hash, s, ty) == ImagesOf(hash, t, ty)
  {
    var m, n := ImagesOf(hash, s, ty), ImagesOf(hash, t, ty);
    forall p ensures p in m <==> p in n {
      assert HasImage(hash, s, ty, p) <==> HasImage(hash, t, ty, p);
    }
    SameMap(m, n);
  }

  /** The value of an image of this path under this key. */
  predicate GoodImage(hash: string -> string, ty: ImageType, k: Key, v: Value) {
    v.Image? && v.data.path != "" && k == ImageKey(hash, ty, v.data.path)
  }

  /** Writing a well-placed image keeps the invariant, whatever was there. */
  lemma PutImageKeepsInterned(hash: string -> string, s: Store, ty: ImageType, k: Key, v: Value)
    requires HashOk(hash) && Sound(hash, s) && IsImageKey(ty, k) && GoodImage(hash, ty, k, v)
    ensures Sound(hash, s[k := v]) && (Interned(hash, s) ==> Interned(hash, s[k := v]))
    ensures HostsScanned(s) ==> HostsScanned(s[k := v])
  {
    var t := s[k := v];
    KeysApart(k);
    forall ty', l | l in t && IsImageKey(ty', l) ensures ImageOk(hash, t, ty', l) {
      if l != k { assert ImageOk(hash, s, ty', l); }
    }
    forall l | l in t && IsHostKey(l) ensures HostShape(t[l]) && (HostOk(s, s[l]) ==> HostOk(t, t[l])) {
      assert l != k && HostShape(s[l]);
    }
  }

  /** and unless the key held another path, hosts mean what they meant. */
  lemma PutImageMeaning(hash: string -> string, s: Store, ty: ImageType, path: string, params: string)
    requires HashOk(hash) && Interned(hash, s) && path != "" && NoClash(hash, s, ty, path)
    ensures var k := ImageKey(hash, ty, path);
      var t := s[k := Image(ImageData(path, params))];
      Interned(hash, t) && HostsOf(t) == HostsOf(s)
      && ImagesOf(hash, t, ty) == ImagesOf(hash, s, ty)[path := params]
      && ImagesOf(hash, t, Other(ty)) == ImagesOf(hash, s, Other(ty))
  {
    var k := ImageKey(hash, ty, path);
    var t := s[k := Image(ImageData(path, params))];
    ImageKeyScanned(hash, ty, path);
    SoundIfInterned(hash, s);
    PutImageKeepsInterned(hash, s, ty, k, t[k]);
    PutImageHosts(hash, s, ty, k, t[k]);
    PutImageImages(hash, s, ty, path, params);
    KeysApart(k);
    SameImagesOf(hash, t, s, Other(ty));
  }

  lemma PutImageHosts(hash: string -> string, s: Store, ty: ImageType, k: Key, v: Value)
    requires HashOk(hash) && Interned(hash, s) && IsImageKey(ty, k) && GoodImage(hash, ty, k, v)
    requires k in s ==> AsImage(s[k]).path == v.data.path
    ensures HostsOf(s[k := v]) == HostsOf(s)
  {
    var t := s[k := v];
    KeysApart(k);
    forall l | l in s && IsHostKey(l) ensures EntryOf(t, AsHost(t[l])) == EntryOf(s, AsHost(s[l])) {
      assert HostOk(s, s[l]);
    }
    SameMap(HostsOf(t), HostsOf(s));
  }

  lemma ImagesAfterPut(hash: string -> string, s: Store, ty: ImageType, path: string, params: string, p: string)
    requires path != "" && NoClash(hash, s, ty, path) && IsImageKey(ty, ImageKey(hash, ty, path))
    ensures var t := s[ImageKey(hash, ty, path) := Image(ImageData(path, params))];
      (HasImage(hash, t, ty, p) <==> p == path || HasImage(hash, s, ty, p))
      && (HasImage(hash, t, ty, p) ==>
            AsImage(t[ImageKey(hash, ty, p)]).params
            == if p == path then params else AsImage(s[ImageKey(hash, ty, p)]).params)
  {}

  lemma PutImageImages(hash: string -> string, s: Store, ty: ImageType, path: string, params: string)
    requires HashOk(hash) && Interned(hash, s) && path != "" && NoClash(hash, s, ty, path)
    requires Interned(hash, s[ImageKey(hash, ty, path) := Image(ImageData(path, params))])
    ensures ImagesOf(hash, s[ImageKey(hash, ty, path) := Image(ImageData(path, params))], ty)
            == ImagesOf(hash, s, ty)[path := params]
  {
    var k := ImageKey(hash, ty, path);
    var t := s[k := Image(ImageData(path, params))];
    ImageKeyScanned(hash, ty, path);
    var m, n := ImagesOf(hash, t, ty), ImagesOf(hash, s, ty)[path := params];
    forall p ensures p in m <==> p in n { ImagesAfterPut(hash, s, ty, path, params, p); }
    forall p | p in m && p in n ensures m[p] == n[p] { ImagesAfterPut(hash, s, ty, path, params, p); }
    SameMap(m, n);
  }

  // ------------------------------------------------------------------ interning

  /** Interning keeps the invariant even when two paths share a hash. */
  lemma InternKeepsInterned(hash: string -> string, s: Store, ty: ImageType, path: string)
    requires HashOk(hash) && Sound(hash, s)
    ensures Sound(hash, Intern(hash, s, ty, path)) && (Interned(hash, s) ==> Interned(hash, Intern(hash, s, ty, path)))
    ensures HostsScanned(s) ==> HostsScanned(Intern(hash, s, ty, path))
    ensures path != "" ==> HasImage(hash, Intern(hash, s, ty, path), ty, path)
    ensures RefOk(Intern(hash, s, ty, path), ty, Ref(hash, ty, path))
    ensures PathOf(Intern(hash, s, ty, path), Ref(hash, ty, path)) == path
  {
    if path != "" {
      ImageKeyScanned(hash, ty, path);
      PutImageKeepsInterned(hash, s, ty, ImageKey(hash, ty, path), Image(ImageData(path, "")));
    }
  }

  /** Interning leaves every stored image as it is exactly when the key of the
      path does not hold another path. */
  lemma InternKeepsImagesIff(hash: string -> string, s: Store, ty: ImageType, path: string)
    ensures (forall k | k in s :: Intern(hash, s, ty, path)[k] == s[k]) <==>
            NoClash(hash, s, ty, path)
  {}

  lemma InternMeaning(hash: string -> string, s: Store, ty: ImageType, path: string)
    requires HashOk(hash) && Interned(hash, s) && NoClash(hash, s, ty, path)
    ensures var t := Intern(hash, s, ty, path);
      Interned(hash, t) && HostsOf(t) == HostsOf(s)
      && ImagesOf(hash, t, ty) == AddImage(ImagesOf(hash, s, ty), path)
      && ImagesOf(hash, t, Other(ty)) == ImagesOf(hash, s, Other(ty))
  {
    if path != "" {
      ImageKeyScanned(hash, ty, path);
      if !HasImage(hash, s, ty, path) { PutImageMeaning(hash, s, ty, path, ""); }
    }
  }

  /** Interning the initrd does not touch the kernel just interned. */
  lemma InternBothOk(hash: string -> string, s: Store, bp: Params)
    requires HashOk(hash) && Sound(hash, s)
    ensures var t := InternBoth(hash, s, bp);
      Sound(hash, t) && (Interned(hash, s) ==> Interned(hash, t)) && (HostsScanned(s) ==> HostsScanned(t))
      && RefOk(t, Kernel, Ref(hash, Kernel, bp.kernel)) && RefOk(t, Initrd, Ref(hash, Initrd, bp.initrd))
      && PathOf(t, Ref(hash, Kernel, bp.kernel)) == bp.kernel && PathOf(t, Ref(hash, Initrd, bp.initrd)) == bp.initrd
  {
    InternKeepsInterned(hash, s, Kernel, bp.kernel);
    var s1 := Intern(hash, s, Kernel, bp.kernel);
    InternKeepsInterned(hash, s1, Initrd, bp.initrd);
    if bp.kernel != "" && bp.initrd != "" {
      ImageKeyScanned(hash, Kernel, bp.kernel);
      ImageKeyScanned(hash, Initrd, bp.initrd);
      KeysApart(ImageKey(hash, Kernel, bp.kernel));
      assert ImageKey(hash, Kernel, bp.kernel) != ImageKey(hash, Initrd, bp.initrd);
    }
  }

  predicate NoClashes(hash: string -> string, s: Store, bp: Params) {
    NoClash(hash, s, Kernel, bp.kernel) && NoClash(hash, s, Initrd, bp.initrd)
  }

  lemma InternBothMeaning(hash: string -> string, s: Store, bp: Params)
    requires HashOk(hash) && Interned(hash, s) && NoClashes(hash, s, bp)
    ensures Interned(hash, InternBoth(hash, s, bp))
    ensures AbstractOf(hash, InternBoth(hash, s, bp)) == AbstractIntern(AbstractOf(hash, s), bp)
    ensures NoClashes(hash, InternBoth(hash, s, bp), bp)
  {
    StillNoClashes(hash, s, bp);
    InternMeaning(hash, s, Kernel, bp.kernel);
    assert Other(Initrd) == Kernel;
    InternMeaning(hash, Intern(hash, s, Kernel, bp.kernel), Initrd, bp.initrd);
  }

  lemma StillNoClashes(hash: string -> string, s: Store, bp: Params)
    requires HashOk(hash) && NoClashes(hash, s, bp)
    ensures NoClash(hash, Intern(hash, s, Kernel, bp.kernel), Initrd, bp.initrd)
    ensures NoClashes(hash, InternBoth(hash, s, bp), bp)
  {
    var s1 := Intern(hash, s, Kernel, bp.kernel);
    InternKeepsNoClash(hash, s, Kernel, bp.kernel, bp.initrd);
    InternedNoClash(hash, s, Kernel, bp.kernel);
    InternKeepsNoClash(hash, s1, Initrd, bp.initrd, bp.kernel);
    InternedNoClash(hash, s1, Initrd, bp.initrd);
  }

  lemma InternedNoClash(hash: string -> string, s: Store, ty: ImageType, path: string)
    ensures NoClash(hash, Intern(hash, s, ty, path), ty, path)
  {}

  lemma InternKeepsNoClash(hash: string -> string, s: Store, ty: ImageType, path: string, other: string)
    requires HashOk(hash) && NoClash(hash, s, Other(ty), other)
    ensures NoClash(hash, Intern(hash, s, ty, path), Other(ty), other)
  {
    ImageKeyScanned(hash, ty, path);
    ImageKeyScanned(hash, Other(ty), other);
    KeysApart(ImageKey(hash, ty, path));
  }

  // -------------------------------------------------------------- writing hosts

  /** A store that differs from s in good host entries only. */
  ghost predicate HostsReplaced(s: Store, t: Store) {
    && (forall k | !IsHostKey(k) :: (k in s <==> k in t) && (k in s && k in t ==> t[k] == s[k]))
    && (forall k | k in t && IsHostKey(k) :: HostOk(s, t[k]))
  }

  lemma ReplacedKeepsInterned(hash: string -> string, s: Store, t: Store)
    requires Interned(hash, s) && HostsReplaced(s, t)
    ensures Interned(hash, t)
    ensures ImagesOf(hash, t, Kernel) == ImagesOf(hash, s, Kernel)
    ensures ImagesOf(hash, t, Initrd) == ImagesOf(hash, s, Initrd)
  {
    forall ty, k | k in t && IsImageKey(ty, k) ensures ImageOk(hash, t, ty, k) {
      KeysApart(k);
      assert ImageOk(hash, s, ty, k);
    }
    forall k | k in t && IsHostKey(k) ensures HostOk(t, t[k]) {
      SameRefs(s, t, t[k]);
    }
    forall k ensures IsImageKey(Kernel, k) || IsImageKey(Initrd, k) ==> !IsHostKey(k) { KeysApart(k); }
    SameImagesOf(hash, t, s, Kernel);
    SameImagesOf(hash, t, s, Initrd);
  }

  lemma SameRefs(s: Store, t: Store, v: Value)
    requires HostsReplaced(s, t) && HostOk(s, v)
    ensures HostOk(t, v) && EntryOf(t, v.bds) == EntryOf(s, v.bds)
  {
    KeysApart(v.bds.kernel);
    KeysApart(v.bds.initrd);
  }

  predicate AllHostKeys(keys: set<Key>) { forall k | k in keys :: IsHostKey(k) }

  lemma PutHostsMeaning(hash: string -> string, s: Store, keys: set<Key>, b: BootDataStore)
    requires Interned(hash, s) && AllHostKeys(keys) && HostOk(s, Host(b))
    ensures Interned(hash, PutHosts(s, keys, b))
    ensures AbstractOf(hash, PutHosts(s, keys, b)) ==
            AbstractOf(hash, s).(hosts := PutEntries(HostsOf(s), keys, EntryOf(s, b)))
  {
    var t := PutHosts(s, keys, b);
    assert HostsReplaced(s, t);
    ReplacedKeepsInterned(hash, s, t);
    PutHostEntries(s, keys, b);
  }

  lemma PutHostEntries(s: Store, keys: set<Key>, b: BootDataStore)
    requires AllHostKeys(keys) && HostsReplaced(s, PutHosts(s, keys, b))
    ensures HostsOf(PutHosts(s, keys, b)) == PutEntries(HostsOf(s), keys, EntryOf(s, b))
  {
    var t := PutHosts(s, keys, b);
    var m, n := HostsOf(t), PutEntries(HostsOf(s), keys, EntryOf(s, b));
    forall k ensures k in m <==> k in n {}
    forall k | k in m && k in n ensures m[k] == n[k] {
      SameRefs(s, t, t[k]);
    }
    SameMap(m, n);
  }

  lemma PatchHostsMeaning(hash: string -> string, s: Store, keys: set<Key>, bp: Params)
    requires Interned(hash, s) && AllHostKeys(keys)
    requires RefOk(s, Kernel, Ref(hash, Kernel, bp.kernel)) && RefOk(s, Initrd, Ref(hash, Initrd, bp.initrd))
    requires PathOf(s, Ref(hash, Kernel, bp.kernel)) == bp.kernel
             && PathOf(s, Ref(hash, Initrd, bp.initrd)) == bp.initrd
    ensures Interned(hash, PatchHosts(hash, s, keys, bp))
    ensures AbstractOf(hash, PatchHosts(hash, s, keys, bp)) ==
            AbstractOf(hash, s).(hosts := PatchEntries(HostsOf(s), keys, bp))
  {
    var t := PatchHosts(hash, s, keys, bp);
    forall k | k in t && IsHostKey(k) ensures HostOk(s, t[k]) { assert HostOk(s, s[k]); }
    assert HostsReplaced(s, t);
    ReplacedKeepsInterned(hash, s, t);
    PatchHostEntries(hash, s, keys, bp);
  }

  lemma PatchHostEntries(hash: string -> string, s: Store, keys: set<Key>, bp: Params)
    requires HostsReplaced(s, PatchHosts(hash, s, keys, bp))
    requires PathOf(s, Ref(hash, Kernel, bp.kernel)) == bp.kernel
             && PathOf(s, Ref(hash, Initrd, bp.initrd)) == bp.initrd
    ensures HostsOf(PatchHosts(hash, s, keys, bp)) == PatchEntries(HostsOf(s), keys, bp)
  {
    var t := PatchHosts(hash, s, keys, bp);
    var m, n := HostsOf(t), PatchEntries(HostsOf(s), keys, bp);
    forall k ensures k in m <==> k in n {}
    forall k | k in m && k in n ensures m[k] == n[k] {
      SameRefs(s, t, t[k]);
    }
    SameMap(m, n);
  }

  // ------------------------------------------------------------------- Store

  /** Store refines its counterpart. */
  lemma StoreRefines(hash: string -> string, sm: Sm, s: Store, bp: Params, token: string)
    requires HashOk(hash) && Interned(hash, s) && NoClashes(hash, s, bp)
    ensures Interned(hash, Stored(hash, sm, s, bp, token))
    ensures AbstractOf(hash, Stored(hash, sm, s, bp, token)) == AbstractStored(sm, AbstractOf(hash, s), bp, token)
  {
    InternBothOk(hash, s, bp);
    InternBothMeaning(hash, s, bp);
    var s1 := InternBoth(hash, s, bp);
    if Targets(sm, bp) != [] {
      var b := BootDataStore(bp.params, Ref(hash, Kernel, bp.kernel), Ref(hash, Initrd, bp.initrd), bp.cloudInit,
                             token);
      assert EntryOf(s1, b) == Entry(bp.params, bp.kernel, bp.initrd, bp.cloudInit, token);
      PutHostsMeaning(hash, s1, HostKeys(Targets(sm, bp)), b);
    } else {
      PutImageRefines(hash, s1, bp);
    }
  }

  lemma PutImageRefines(hash: string -> string, s: Store, bp: Params)
    requires HashOk(hash) && Interned(hash, s) && NoClashes(hash, s, bp)
    ensures Interned(hash, PutImage(hash, s, bp))
    ensures AbstractOf(hash, PutImage(hash, s, bp)) == AbstractImage(AbstractOf(hash, s), bp)
  {
    if bp.kernel != "" {
      PutImageMeaning(hash, s, Kernel, bp.kernel, bp.params);
    } else if bp.initrd != "" {
      PutImageMeaning(hash, s, Initrd, bp.initrd, bp.params);
    }
  }

  // ------------------------------------------------------------------ Update

  lemma SameChoices(sm: Sm, a: set<Key>, b: set<Key>, bp: Params)
    requires forall name :: Known(a, name) <==> Known(b, name)
    ensures Choices(sm, a, bp) == Choices(sm, b, bp)
  {}

  lemma UpdateRefines(hash: string -> string, sm: Sm, s: Store, bp: Params)
    requires HashOk(hash) && Interned(hash, s) && NoClashes(hash, s, bp)
    ensures Interned(hash, UpdatedStore(hash, sm, s, bp))
    ensures AbstractOf(hash, UpdatedStore(hash, sm, s, bp)) == AbstractUpdated(sm, AbstractOf(hash, s), bp)
  {
    InternBothOk(hash, s, bp);
    InternBothMeaning(hash, s, bp);
    var s1 := InternBoth(hash, s, bp);
    HostChoices(sm, s1, bp);
    var cs := Choices(sm, s1.Keys, bp);
    if NoneAbsent(cs) {
      if Used(cs) != {} {
        PatchHostsMeaning(hash, s1, Used(cs), bp);
      } else {
        PutImageRefines(hash, s1, bp);
      }
    }
  }

  lemma HostChoices(sm: Sm, s: Store, bp: Params)
    ensures Choices(sm, s.Keys, bp) == Choices(sm, HostsOf(s).Keys, bp)
    ensures AllHostKeys(Used(Choices(sm, s.Keys, bp)))
  {}

  // ---------------------------------------- the invariant, collisions or not

  /** Host entries of which the scanned ones are good. */
  ghost predicate ScannedReplaced(s: Store, t: Store) {
    && (forall k | !IsHostKey(k) :: (k in s <==> k in t) && (k in s && k in t ==> t[k] == s[k]))
    && (forall k | k in t && IsHostKey(k) :: HostShape(t[k]) && (Scanned(PARAMS_PREFIX, k) ==> HostOk(s, t[k])))
  }

  lemma ReplacedKeepsSound(hash: string -> string, s: Store, t: Store)
    requires Sound(hash, s) && ScannedReplaced(s, t)
    ensures Sound(hash, t)
    ensures HostsReplaced(s, t) ==> Interned(hash, t)
  {
    forall ty, k | k in t && IsImageKey(ty, k) ensures ImageOk(hash, t, ty, k) {
      KeysApart(k);
      assert ImageOk(hash, s, ty, k);
    }
    forall k | k in t && IsHostKey(k) ensures HostShape(t[k]) && (HostOk(s, t[k]) ==> HostOk(t, t[k])) {
      KeysApart(t[k].bds.kernel);
      KeysApart(t[k].bds.initrd);
    }
  }

  lemma PutImageStaysInterned(hash: string -> string, s: Store, bp: Params)
    requires HashOk(hash) && Sound(hash, s)
    ensures Sound(hash, PutImage(hash, s, bp)) && (Interned(hash, s) ==> Interned(hash, PutImage(hash, s, bp)))
    ensures HostsScanned(s) ==> HostsScanned(PutImage(hash, s, bp))
  {
    if bp.kernel != "" {
      ImageKeyScanned(hash, Kernel, bp.kernel);
      PutImageKeepsInterned(hash, s, Kernel, ImageKey(hash, Kernel, bp.kernel), Image(ImageData(bp.kernel, bp.params)));
    } else if bp.initrd != "" {
      ImageKeyScanned(hash, Initrd, bp.initrd);
      PutImageKeepsInterned(hash, s, Initrd, ImageKey(hash, Initrd, bp.initrd), Image(ImageData(bp.initrd, bp.params)));
    }
  }

  lemma PutHostsStaysInterned(hash: string -> string, s: Store, keys: set<Key>, b: BootDataStore)
    requires Sound(hash, s) && AllHostKeys(keys) && HostOk(s, Host(b))
    ensures Sound(hash, PutHosts(s, keys, b)) && (Interned(hash, s) ==> Interned(hash, PutHosts(s, keys, b)))
  {
    assert ScannedReplaced(s, PutHosts(s, keys, b));
    ReplacedKeepsSound(hash, s, PutHosts(s, keys, b));
  }

  /** No store request makes a reference dangle. */
  lemma StoreKeepsInterned(hash: string -> string, sm: Sm, s: Store, bp: Params, token: string)
    requires HashOk(hash) && Sound(hash, s)
    ensures Sound(hash, Stored(hash, sm, s, bp, token))
    ensures Interned(hash, s) ==> Interned(hash, Stored(hash, sm, s, bp, token))
    ensures HostsScanned(s) && (forall n | n in Targets(sm, bp) :: Scanned(PARAMS_PREFIX, HostKey(n))) ==>
              HostsScanned(Stored(hash, sm, s, bp, token))
  {
    InternBothOk(hash, s, bp);
    var s1 := InternBoth(hash, s, bp);
    if Targets(sm, bp) != [] {
      PutHostsStaysInterned(hash, s1, HostKeys(Targets(sm, bp)),
                            BootDataStore(bp.params, Ref(hash, Kernel, bp.kernel), Ref(hash, Initrd, bp.initrd),
                                          bp.cloudInit, token));
    } else {
      PutImageStaysInterned(hash, s1, bp);
    }
  }

  lemma PatchHostsStaysInterned(hash: string -> string, s: Store, keys: set<Key>, bp: Params)
    requires Sound(hash, s) && AllHostKeys(keys)
    requires RefOk(s, Kernel, Ref(hash, Kernel, bp.kernel)) && RefOk(s, Initrd, Ref(hash, Initrd, bp.initrd))
    ensures Sound(hash, PatchHosts(hash, s, keys, bp))
    ensures Interned(hash, s) ==> Interned(hash, PatchHosts(hash, s, keys, bp))
    ensures HostsScanned(s) ==> HostsScanned(PatchHosts(hash, s, keys, bp))
  {
    var t := PatchHosts(hash, s, keys, bp);
    forall k | k in t && IsHostKey(k) ensures HostShape(t[k]) && (HostOk(s, s[k]) ==> HostOk(s, t[k])) {
      assert HostShape(s[k]);
    }
    ReplacedKeepsSound(hash, s, t);
  }

  /** Nor does an update request. */
  lemma UpdateKeepsInterned(hash: string -> string, sm: Sm, s: Store, bp: Params)
    requires HashOk(hash) && Sound(hash, s)
    ensures Sound(hash, UpdatedStore(hash, sm, s, bp))
    ensures Interned(hash, s) ==> Interned(hash, UpdatedStore(hash, sm, s, bp))
    ensures HostsScanned(s) ==> HostsScanned(UpdatedStore(hash, sm, s, bp))
  {
    InternBothOk(hash, s, bp);
    var s1 := InternBoth(hash, s, bp);
    var cs := Choices(sm, s1.Keys, bp);
    HostChoices(sm, s1, bp);
    if NoneAbsent(cs) {
      if Used(cs) != {} {
        PatchHostsStaysInterned(hash, s1, Used(cs), bp);
      } else {
        PutImageStaysInterned(hash, s1, bp);
      }
    }
  }
}
