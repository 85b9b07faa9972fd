/** Removal in the key-value backend: an image leaves with every reference to
    it, and nothing else changes. */
module KvRemoval {
  import opened Common
  import opened KeyRanges
  import opened KvLaws
  import opened KvSpec

  function RefOf(ty: ImageType, b: BootDataStore): Key {
    match ty case Kernel => b.kernel case Initrd => b.initrd
  }

  /** A host entry without its reference to an image of this type. */
  function WithoutRef(ty: ImageType, b: BootDataStore): BootDataStore {
    match ty case Kernel => b.(kernel := "") case Initrd => b.(initrd := "")
  }

  /** The image and the references to it go, and no other field of any host
      entry and no other image changes. */
  ghost predicate OnlyImageRemoved(s: Store, t: Store, ty: ImageType, key: Key) {
    && t.Keys == s.Keys - {key}
    && (forall k | k in t && !IsHostKey(k) :: t[k] == s[k])
    && (forall k | k in t && IsHostKey(k) ::
          t[k] == if RefOf(ty, AsHost(s[k])) == key then Host(WithoutRef(ty, AsHost(s[k]))) else s[k])
  }

  /** Entries the scan for host entries passes over, and that use the image. */
  ghost predicate Overlooked(s: Store, ty: ImageType, key: Key) {
    exists k :: k in s && IsHostKey(k) && !Scanned(PARAMS_PREFIX, k) && RefOf(ty, AsHost(s[k])) == key
  }

  /** The cascade reaches every reference exactly when the scan finds every
      entry that has one; then and only then the references still resolve. */
  lemma ImageRemovalIff(hash: string -> string, s: Store, ty: ImageType, path: string)
    requires HashOk(hash) && Interned(hash, s) && HasImage(hash, s, ty, path)
    ensures var key, t := ImageKey(hash, ty, path), ImageRemoved(hash, s, ty, path);
      && (OnlyImageRemoved(s, t, ty, key) <==> !Overlooked(s, ty, key))
      && (Interned(hash, t) <==> !Overlooked(s, ty, key))
  {
    var key, t := ImageKey(hash, ty, path), ImageRemoved(hash, s, ty, path);
    if Overlooked(s, ty, key) {
      var k :| k in s && IsHostKey(k) && !Scanned(PARAMS_PREFIX, k) && RefOf(ty, AsHost(s[k])) == key;
      OverlookedDangles(hash, s, ty, path, k);
    } else {
      RemovedCleanly(hash, s, ty, path);
      CleanRemovalKeepsInterned(hash, s, t, ty, key);
    }
  }

  lemma OverlookedDangles(hash: string -> string, s: Store, ty: ImageType, path: string, k: Key)
    requires HashOk(hash) && Interned(hash, s) && HasImage(hash, s, ty, path)
    requires k in s && IsHostKey(k) && !Scanned(PARAMS_PREFIX, k)
    requires RefOf(ty, AsHost(s[k])) == ImageKey(hash, ty, path)
    ensures !OnlyImageRemoved(s, ImageRemoved(hash, s, ty, path), ty, ImageKey(hash, ty, path))
    ensures !Interned(hash, ImageRemoved(hash, s, ty, path))
  {}

  lemma RemovedCleanly(hash: string -> string, s: Store, ty: ImageType, path: string)
    requires HashOk(hash) && Interned(hash, s) && HasImage(hash, s, ty, path)
    requires !Overlooked(s, ty, ImageKey(hash, ty, path))
    ensures OnlyImageRemoved(s, ImageRemoved(hash, s, ty, path), ty, ImageKey(hash, ty, path))
  {}

  lemma CleanRemovalKeepsInterned(hash: string -> string, s: Store, t: Store, ty: ImageType, key: Key)
    requires Interned(hash, s) && IsImageKey(ty, key) && OnlyImageRemoved(s, t, ty, key)
    ensures Interned(hash, t)
  {
    forall ty', k | k in t && IsImageKey(ty', k) ensures ImageOk(hash, t, ty', k) {
      KeysApart(k);
      assert ImageOk(hash, s, ty', k);
    }
    KeysApart(key);
    forall k | k in t && IsHostKey(k) ensures HostOk(t, t[k]) { assert HostOk(s, s[k]); }
  }

  // ------------------------------------------------------------------- meaning

  function ClearPath(ty: ImageType, e: Entry, path: string): Entry {
    match ty
    case Kernel => e.(kernel := if e.kernel == path then "" else e.kernel)
    case Initrd => e.(initrd := if e.initrd == path then "" else e.initrd)
  }

  function ClearPaths(ty: ImageType, hosts: map<Key, Entry>, path: string): map<Key, Entry> {
    map k | k in hosts :: ClearPath(ty, hosts[k], path)
  }

  /** What a reference leads to, unless it is the removed key. */
  lemma OtherPathStays(hash: string -> string, s: Store, ty: ImageType, path: string, rty: ImageType, ref: Key)
    requires HashOk(hash) && ImagesInterned(hash, s) && HasImage(hash, s, ty, path)
    requires RefShape(rty, ref) && (rty == ty ==> ref != ImageKey(hash, ty, path))
    ensures PathOf(ImageRemoved(hash, s, ty, path), ref) == PathOf(s, ref)
    ensures rty == ty ==> PathOf(s, ref) != path
  {
    KeysApart(ref);
    if ref in s && ref != "" { assert ImageOk(hash, s, rty, ref); }
  }

  lemma EntryAfterRemoval(hash: string -> string, s: Store, ty: ImageType, path: string, k: Key)
    requires HashOk(hash) && Sound(hash, s) && HasImage(hash, s, ty, path) && k in s && IsHostKey(k)
    ensures k in ImageRemoved(hash, s, ty, path)
    ensures var t := ImageRemoved(hash, s, ty, path);
      EntryOf(t, AsHost(t[k])) == ClearPath(ty, EntryOf(s, AsHost(s[k])), path)
  {
    var key, b := ImageKey(hash, ty, path), AsHost(s[k]);
    assert HostShape(s[k]);
    KeysApart(key);
    KeysApart(b.kernel);
    KeysApart(b.initrd);
    if ty == Initrd || b.kernel != key { OtherPathStays(hash, s, ty, path, Kernel, b.kernel); }
    if ty == Kernel || b.initrd != key { OtherPathStays(hash, s, ty, path, Initrd, b.initrd); }
  }

  lemma HostsAfterRemoval(hash: string -> string, s: Store, ty: ImageType, path: string)
    requires HashOk(hash) && Sound(hash, s) && HasImage(hash, s, ty, path)
    ensures HostsOf(ImageRemoved(hash, s, ty, path)) == ClearPaths(ty, HostsOf(s), path)
  {
    var m, n := HostsOf(ImageRemoved(hash, s, ty, path)), ClearPaths(ty, HostsOf(s), path);
    KeysApart(ImageKey(hash, ty, path));
    forall k ensures k in m <==> k in n {}
    forall k | k in m && k in n ensures m[k] == n[k] { EntryAfterRemoval(hash, s, ty, path, k); }
    SameMap(m, n);
  }

  lemma ImageStays(hash: string -> string, s: Store, ty: ImageType, path: string, rty: ImageType, p: string)
    requires HasImage(hash, s, ty, path)
    ensures var t := ImageRemoved(hash, s, ty, path);
      (HasImage(hash, t, rty, p) <==> HasImage(hash, s, rty, p) && !(rty == ty && p == path))
      && (HasImage(hash, t, rty, p) ==> t[ImageKey(hash, rty, p)] == s[ImageKey(hash, rty, p)])
  {
    var k := ImageKey(hash, rty, p);
    KeysApart(k);
  }

  /** The images of one type before and after, without the one removed. */
  lemma ImagesAfterRemovalOf(hash: string -> string, s: Store, ty: ImageType, path: string, rty: ImageType)
    requires ImagesInterned(hash, s) && HasImage(hash, s, ty, path)
    requires ImagesInterned(hash, ImageRemoved(hash, s, ty, path))
    ensures ImagesOf(hash, ImageRemoved(hash, s, ty, path), rty)
            == ImagesOf(hash, s, rty) - if rty == ty then {path} else {}
  {
    hide ImageRemoved, ImagesInterned, HasImage, ImagesOf;
    var t := ImageRemoved(hash, s, ty, path);
    var m, n := ImagesOf(hash, t, rty), ImagesOf(hash, s, rty) - if rty == ty then {path} else {};
    forall p ensures p in m <==> p in n { ImageStays(hash, s, ty, path, rty, p); }
    forall p | p in m && p in n ensures m[p] == n[p] { ImageStays(hash, s, ty, path, rty, p); }
    SameMap(m, n);
  }

  lemma ImagesAfterRemoval(hash: string -> string, s: Store, ty: ImageType, path: string)
    requires ImagesInterned(hash, s) && HasImage(hash, s, ty, path)
    requires ImagesInterned(hash, ImageRemoved(hash, s, ty, path))
    ensures var t := ImageRemoved(hash, s, ty, path);
      ImagesOf(hash, t, ty) == ImagesOf(hash, s, ty) - {path}
      && ImagesOf(hash, t, Other(ty)) == ImagesOf(hash, s, Other(ty))
  {
    hide ImageRemoved, ImagesInterned, HasImage, ImagesOf;
    ImagesAfterRemovalOf(hash, s, ty, path, ty);
    ImagesAfterRemovalOf(hash, s, ty, path, Other(ty));
    assert ImagesOf(hash, s, Other(ty)) - {} == ImagesOf(hash, s, Other(ty));
  }

  /** A path no entry has: removing it is as good as clearing it. */
  lemma NothingToClear(hash: string -> string, s: Store, ty: ImageType, path: string)
    requires Sound(hash, s) && !HasImage(hash, s, ty, path)
    ensures ClearPaths(ty, HostsOf(s), path) == HostsOf(s)
  {
    var m, n := ClearPaths(ty, HostsOf(s), path), HostsOf(s);
    forall k | k in m && k in n ensures m[k] == n[k] { NoEntryHas(hash, s, ty, path, k); }
    SameMap(m, n);
  }

  lemma NoEntryHas(hash: string -> string, s: Store, ty: ImageType, path: string, k: Key)
    requires Sound(hash, s) && !HasImage(hash, s, ty, path) && k in s && IsHostKey(k)
    ensures path == "" || PathOf(s, RefOf(ty, AsHost(s[k]))) != path
  {
    var ref := RefOf(ty, AsHost(s[k]));
    assert HostShape(s[k]);
    if ref != "" && ref in s { assert ImageOk(hash, s, ty, ref); }
  }

  lemma RemovalKeepsImages(hash: string -> string, s: Store, ty: ImageType, path: string)
    requires ImagesInterned(hash, s)
    ensures ImagesInterned(hash, ImageRemoved(hash, s, ty, path))
  {
    var t := ImageRemoved(hash, s, ty, path);
    forall ty', k | k in t && IsImageKey(ty', k) ensures ImageOk(hash, t, ty', k) {
      KeysApart(k);
      assert ImageOk(hash, s, ty', k);
    }
  }

  /** A removal leaves no scanned entry with a reference to the image. */
  lemma RemovalKeepsSound(hash: string -> string, s: Store, ty: ImageType, path: string)
    requires HashOk(hash) && Sound(hash, s)
    ensures Sound(hash, ImageRemoved(hash, s, ty, path))
  {
    var t, key := ImageRemoved(hash, s, ty, path), ImageKey(hash, ty, path);
    RemovalKeepsImages(hash, s, ty, path);
    ImageKeyScanned(hash, ty, path);
    KeysApart(key);
    forall k | k in t && IsHostKey(k)
      ensures HostShape(t[k]) && (Scanned(PARAMS_PREFIX, k) ==> HostOk(t, t[k]))
    {
      assert HostShape(s[k]);
      KeysApart(s[k].bds.kernel);
      KeysApart(s[k].bds.initrd);
    }
  }

  /** For the map of hosts and images a removal does what it should, even when
      the scan passes over an entry that uses the image. */
  lemma ImageRemovalMeaning(hash: string -> string, s: Store, ty: ImageType, path: string)
    requires HashOk(hash) && Sound(hash, s)
    ensures var t := ImageRemoved(hash, s, ty, path);
      Sound(hash, t)
      && HostsOf(t) == ClearPaths(ty, HostsOf(s), path)
      && ImagesOf(hash, t, ty) == ImagesOf(hash, s, ty) - {path}
      && ImagesOf(hash, t, Other(ty)) == ImagesOf(hash, s, Other(ty))
  {
    ImageKeyScanned(hash, ty, path);
    RemovalKeepsSound(hash, s, ty, path);
    if HasImage(hash, s, ty, path) {
      HostsAfterRemoval(hash, s, ty, path);
      ImagesAfterRemoval(hash, s, ty, path);
    } else {
      NothingToClear(hash, s, ty, path);
      SameMap(ImagesOf(hash, s, ty) - {path}, ImagesOf(hash, s, ty));
    }
  }

  lemma HostRemovalMeaning(hash: string -> string, s: Store, keys: set<Key>)
    requires Sound(hash, s) && AllHostKeys(keys)
    ensures Sound(hash, s - keys) && (Interned(hash, s) ==> Interned(hash, s - keys))
    ensures HostsOf(s - keys) == HostsOf(s) - keys
    ensures ImagesOf(hash, s - keys, Kernel) == ImagesOf(hash, s, Kernel)
    ensures ImagesOf(hash, s - keys, Initrd) == ImagesOf(hash, s, Initrd)
  {
    var t := s - keys;
    forall k ensures IsImageKey(Kernel, k) || IsImageKey(Initrd, k) ==> k !in keys { KeysApart(k); }
    forall ty, k | k in t && IsImageKey(ty, k) ensures ImageOk(hash, t, ty, k) { assert ImageOk(hash, s, ty, k); }
    forall k | k in t && IsHostKey(k)
      ensures HostShape(t[k]) && (HostOk(s, s[k]) ==> HostOk(t, t[k]))
      ensures EntryOf(t, AsHost(t[k])) == EntryOf(s, AsHost(s[k]))
    {
      assert HostShape(s[k]);
    }
    SameImagesOf(hash, t, s, Kernel);
    SameImagesOf(hash, t, s, Initrd);
    SameMap(HostsOf(t), HostsOf(s) - keys);
  }

  /** Remove refines its counterpart, whatever the names of the entries. */
  lemma RemoveRefines(hash: string -> string, sm: Sm, s: Store, bp: Params)
    requires HashOk(hash) && Sound(hash, s)
    ensures var t := RemovedStore(hash, sm, s, bp);
      Sound(hash, t) && AbstractOf(hash, t) == AbstractRemoved(sm, AbstractOf(hash, s), bp)
  {
    var s1 := s - HostKeys(RemovedNames(sm, bp));
    HostRemovalMeaning(hash, s, HostKeys(RemovedNames(sm, bp)));
    ImageRemovalMeaning(hash, s1, Kernel, bp.kernel);
    var s2 := ImageRemoved(hash, s1, Kernel, bp.kernel);
    ImageRemovalMeaning(hash, s2, Initrd, bp.initrd);
    ClearedBoth(HostsOf(s), HostKeys(RemovedNames(sm, bp)), bp);
    assert Other(Kernel) == Initrd && Other(Initrd) == Kernel;
  }

  lemma ClearedBoth(hosts: map<Key, Entry>, keys: set<Key>, bp: Params)
    ensures ClearPaths(Initrd, ClearPaths(Kernel, hosts - keys, bp.kernel), bp.initrd)
            == map k | k in hosts && k !in keys :: ClearedEntry(hosts[k], bp)
  {}

  // -------------------------------------------------------- dangling references

  /** Removing the image leaves a reference to it behind. */
  ghost predicate Overlooks(hash: string -> string, s: Store, ty: ImageType, path: string) {
    HasImage(hash, s, ty, path) && Overlooked(s, ty, ImageKey(hash, ty, path))
  }

  /** Among the entries that stay, one that the scan passes over uses an image
      that goes. */
  ghost predicate RemoveOverlooks(hash: string -> string, sm: Sm, s: Store, bp: Params) {
    var s1 := s - HostKeys(RemovedNames(sm, bp));
    Overlooks(hash, s1, Kernel, bp.kernel) || Overlooks(hash, s1, Initrd, bp.initrd)
  }

  lemma RemovalInternedIff(hash: string -> string, s: Store, ty: ImageType, path: string)
    requires HashOk(hash) && Interned(hash, s)
    ensures Interned(hash, ImageRemoved(hash, s, ty, path)) <==> !Overlooks(hash, s, ty, path)
  {
    ImageKeyScanned(hash, ty, path);
    if HasImage(hash, s, ty, path) { ImageRemovalIff(hash, s, ty, path); }
  }

  /** The removal of an initrd neither mends a kernel reference nor changes
      which entries use an initrd. */
  lemma KernelFirst(hash: string -> string, s: Store, bp: Params)
    requires HashOk(hash) && Sound(hash, s)
    ensures var s1 := ImageRemoved(hash, s, Kernel, bp.kernel);
      && (Overlooks(hash, s1, Initrd, bp.initrd) <==> Overlooks(hash, s, Initrd, bp.initrd))
      && (Overlooks(hash, s, Kernel, bp.kernel) ==> !Interned(hash, ImageRemoved(hash, s1, Initrd, bp.initrd)))
  {
    var s1 := ImageRemoved(hash, s, Kernel, bp.kernel);
    var key, key' := ImageKey(hash, Kernel, bp.kernel), ImageKey(hash, Initrd, bp.initrd);
    ImageKeyScanned(hash, Kernel, bp.kernel);
    ImageKeyScanned(hash, Initrd, bp.initrd);
    KeysApart(key);
    KeysApart(key');
    assert HasImage(hash, s1, Initrd, bp.initrd) <==> HasImage(hash, s, Initrd, bp.initrd);
    forall k | k in s && IsHostKey(k) && !Scanned(PARAMS_PREFIX, k) ensures k in s1 && s1[k] == s[k] {}
    if Overlooks(hash, s, Kernel, bp.kernel) {
      var k :| k in s && IsHostKey(k) && !Scanned(PARAMS_PREFIX, k) && RefOf(Kernel, AsHost(s[k])) == key;
      StillDangles(hash, s1, bp, k, key);
    }
  }

  lemma StillDangles(hash: string -> string, s: Store, bp: Params, k: Key, ref: Key)
    requires HashOk(hash) && k in s && IsHostKey(k) && !Scanned(PARAMS_PREFIX, k)
    requires RefOf(Kernel, AsHost(s[k])) == ref != "" && ref !in s
    ensures !Interned(hash, ImageRemoved(hash, s, Initrd, bp.initrd))
  {
    var t := ImageRemoved(hash, s, Initrd, bp.initrd);
    ImageKeyScanned(hash, Initrd, bp.initrd);
    KeysApart(k);
    assert k in t && t[k] == s[k] && !HostOk(t, t[k]);
  }

  /** A remove request keeps every reference whole exactly when it overlooks
      none. */
  lemma RemoveInternedIff(hash: string -> string, sm: Sm, s: Store, bp: Params)
    requires HashOk(hash) && Interned(hash, s)
    ensures Interned(hash, RemovedStore(hash, sm, s, bp)) <==> !RemoveOverlooks(hash, sm, s, bp)
  {
    var s1 := s - HostKeys(RemovedNames(sm, bp));
    SoundIfInterned(hash, s);
    HostRemovalMeaning(hash, s, HostKeys(RemovedNames(sm, bp)));
    KernelFirst(hash, s1, bp);
    RemovalInternedIff(hash, s1, Kernel, bp.kernel);
    if !Overlooks(hash, s1, Kernel, bp.kernel) {
      RemovalInternedIff(hash, ImageRemoved(hash, s1, Kernel, bp.kernel), Initrd, bp.initrd);
    }
  }

  lemma ScannedOverlooksNone(hash: string -> string, sm: Sm, s: Store, bp: Params)
    requires HostsScanned(s)
    ensures !RemoveOverlooks(hash, sm, s, bp)
  {}
}
