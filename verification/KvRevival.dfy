/** What a reference that a removal left behind does later: it comes back to
    life when its image is stored again, and only then the store means something
    else than it should. */
module KvRevival {
  import opened Common
  import opened KeyRanges
  import opened KvLaws
  import opened KvRemoval
  import opened KvSpec

  // ------------------------------------------------------------------- sweeping

  function SweptRef(s: Store, ref: Key): Key { if ref != "" && ref in s then ref else "" }

  function SweptHost(s: Store, b: BootDataStore): BootDataStore {
    b.(kernel := SweptRef(s, b.kernel), initrd := SweptRef(s, b.initrd))
  }

  /** The store with its dangling references cleared. */
  function Swept(s: Store): Store {
    map k | k in s :: if IsHostKey(k) then Host(SweptHost(s, AsHost(s[k]))) else s[k]
  }

  lemma SweptInterned(hash: string -> string, s: Store)
    requires Sound(hash, s)
    ensures Interned(hash, Swept(s))
  {
    var t := Swept(s);
    forall ty, k | k in t && IsImageKey(ty, k) ensures ImageOk(hash, t, ty, k) {
      KeysApart(k);
      assert ImageOk(hash, s, ty, k);
    }
    forall k | k in t && IsHostKey(k) ensures HostOk(t, t[k]) { assert HostShape(s[k]); }
  }

  lemma SweptEntry(hash: string -> string, s: Store, k: Key)
    requires Sound(hash, s) && k in s && IsHostKey(k)
    ensures EntryOf(Swept(s), AsHost(Swept(s)[k])) == EntryOf(s, AsHost(s[k]))
  {
    assert HostShape(s[k]);
    KeysApart(s[k].bds.kernel);
    KeysApart(s[k].bds.initrd);
  }

  /** Sweeping changes nothing that the store means. */
  lemma SweptMeaning(hash: string -> string, s: Store)
    requires Sound(hash, s)
    ensures Interned(hash, Swept(s)) && AbstractOf(hash, Swept(s)) == AbstractOf(hash, s)
  {
    var t := Swept(s);
    SweptInterned(hash, s);
    forall k | k in s && IsHostKey(k) ensures EntryOf(t, AsHost(t[k])) == EntryOf(s, AsHost(s[k])) {
      SweptEntry(hash, s, k);
    }
    SameMap(HostsOf(t), HostsOf(s));
    forall ty, k | IsImageKey(ty, k) ensures !IsHostKey(k) { KeysApart(k); }
    SameImagesOf(hash, t, s, Kernel);
    SameImagesOf(hash, t, s, Initrd);
  }

  // ------------------------------------------------------------------- reviving

  function PathFor(ty: ImageType, bp: Params): string { match ty case Kernel => bp.kernel case Initrd => bp.initrd }

  /** The entry refers to an image of the request that is not stored. */
  predicate WaitsFor(hash: string -> string, s: Store, bp: Params, ty: ImageType, k: Key) {
    && k in s && IsHostKey(k) && PathFor(ty, bp) != ""
    && ImageKey(hash, ty, PathFor(ty, bp)) !in s
    && RefOf(ty, AsHost(s[k])) == ImageKey(hash, ty, PathFor(ty, bp))
  }

  /** Storing the images of the request gives one back to an entry that the
      request does not write. */
  ghost predicate Revives(hash: string -> string, s: Store, bp: Params, written: set<Key>) {
    exists ty, k :: WaitsFor(hash, s, bp, ty, k) && k !in written
  }

  function StoreWrites(sm: Sm, bp: Params): set<Key> { HostKeys(Targets(sm, bp)) }

  function UpdateWrites(sm: Sm, s: Store, bp: Params): set<Key> {
    if NoneAbsent(Choices(sm, s.Keys, bp)) then Used(Choices(sm, s.Keys, bp)) else {}
  }

  lemma InternedKeys(hash: string -> string, s: Store, bp: Params, k: Key)
    ensures k in InternBoth(hash, s, bp) <==>
            k in s || exists ty :: PathFor(ty, bp) != "" && k == ImageKey(hash, ty, PathFor(ty, bp))
  {
    assert PathFor(Kernel, bp) == bp.kernel && PathFor(Initrd, bp) == bp.initrd;
  }

  /** t is s with the images of the request, and besides only these host
      entries written. */
  ghost predicate Writes(hash: string -> string, s: Store, bp: Params, written: set<Key>, t: Store) {
    && (forall k | !IsHostKey(k) :: k in t <==> k in InternBoth(hash, s, bp))
    && (forall k | k in t && IsHostKey(k) && k !in written :: k in s && t[k] == s[k])
    && (forall k | k in s && IsHostKey(k) :: k in t)
  }

  lemma RefStays(hash: string -> string, s: Store, bp: Params, written: set<Key>, t: Store, ty: ImageType, k: Key)
    requires HashOk(hash) && Sound(hash, s) && Writes(hash, s, bp, written, t) && !Revives(hash, s, bp, written)
    requires k in s && IsHostKey(k) && k !in written
    ensures SweptRef(t, RefOf(ty, AsHost(s[k]))) == SweptRef(s, RefOf(ty, AsHost(s[k])))
  {
    var ref := RefOf(ty, AsHost(s[k]));
    assert HostShape(s[k]);
    KeysApart(ref);
    InternedKeys(hash, s, bp, ref);
    if ref != "" && ref in t && ref !in s {
      var ty' :| PathFor(ty', bp) != "" && ref == ImageKey(hash, ty', PathFor(ty', bp));
      ImageKeyScanned(hash, ty', PathFor(ty', bp));
      assert WaitsFor(hash, s, bp, ty, k);
    }
  }

  /** When nothing is revived, sweeping before or after comes to the same. */
  lemma SweptAlike(hash: string -> string, s: Store, bp: Params, written: set<Key>, t: Store, u: Store)
    requires HashOk(hash) && Sound(hash, s) && Writes(hash, s, bp, written, t) && !Revives(hash, s, bp, written)
    requires u.Keys == t.Keys && forall k | k in t && !IsHostKey(k) :: u[k] == t[k]
    requires forall k | k in t && IsHostKey(k) && k !in written :: u[k] == Swept(s)[k]
    requires forall k | k in t && IsHostKey(k) && k in written :: u[k] == Host(SweptHost(t, AsHost(t[k])))
    ensures Swept(t) == u
  {
    forall k | k in t && IsHostKey(k) && k !in written ensures Swept(t)[k] == u[k] {
      RefStays(hash, s, bp, written, t, Kernel, k);
      RefStays(hash, s, bp, written, t, Initrd, k);
    }
    SameMap(Swept(t), u);
  }

  /** An entry that is revived means something else than before. */
  lemma RevivedEntry(hash: string -> string, s: Store, bp: Params, written: set<Key>, t: Store, ty: ImageType, k: Key)
    requires WaitsFor(hash, s, bp, ty, k) && k !in written && Writes(hash, s, bp, written, t)
    requires ImageKey(hash, ty, PathFor(ty, bp)) in t && ImageKey(hash, ty, PathFor(ty, bp)) != ""
    requires AsImage(t[ImageKey(hash, ty, PathFor(ty, bp))]).path == PathFor(ty, bp)
    ensures k in HostsOf(t) && k in HostsOf(s) && HostsOf(t)[k] != HostsOf(s)[k]
  {}

  lemma RequestImage(hash: string -> string, s: Store, bp: Params, ty: ImageType)
    requires HashOk(hash) && Sound(hash, s) && PathFor(ty, bp) != ""
    ensures var k, t := ImageKey(hash, ty, PathFor(ty, bp)), InternBoth(hash, s, bp);
      k != "" && !IsHostKey(k) && k in t && AsImage(t[k]).path == PathFor(ty, bp)
      && (k in PutImage(hash, t, bp) && AsImage(PutImage(hash, t, bp)[k]).path == PathFor(ty, bp))
  {
    ImageKeyScanned(hash, Kernel, bp.kernel);
    ImageKeyScanned(hash, Initrd, bp.initrd);
    KeysApart(ImageKey(hash, ty, PathFor(ty, bp)));
    InternBothOk(hash, s, bp);
  }

  // ----------------------------------------------------- interning after a sweep

  lemma InternSwept(hash: string -> string, s: Store, ty: ImageType, path: string)
    requires HashOk(hash)
    ensures var t, u := Intern(hash, s, ty, path), Intern(hash, Swept(s), ty, path);
      && t.Keys == u.Keys && (forall k | k in t && !IsHostKey(k) :: u[k] == t[k])
      && (forall k | k in t && IsHostKey(k) :: k in s && t[k] == s[k] && u[k] == Swept(s)[k])
  {
    ImageKeyScanned(hash, ty, path);
    KeysApart(ImageKey(hash, ty, path));
  }

  lemma InternBothSwept(hash: string -> string, s: Store, bp: Params)
    requires HashOk(hash)
    ensures var t, u := InternBoth(hash, s, bp), InternBoth(hash, Swept(s), bp);
      && t.Keys == u.Keys && (forall k | k in t && !IsHostKey(k) :: u[k] == t[k])
      && (forall k | k in t && IsHostKey(k) :: k in s && t[k] == s[k] && u[k] == Swept(s)[k])
  {
    var k1, k2 := ImageKey(hash, Kernel, bp.kernel), ImageKey(hash, Initrd, bp.initrd);
    ImageKeyScanned(hash, Kernel, bp.kernel);
    ImageKeyScanned(hash, Initrd, bp.initrd);
    KeysApart(k1);
    KeysApart(k2);
    InternSwept(hash, s, Kernel, bp.kernel);
  }

  lemma SweptNoClashes(hash: string -> string, s: Store, bp: Params)
    requires HashOk(hash) && NoClashes(hash, s, bp)
    ensures NoClashes(hash, Swept(s), bp)
  {
    ImageKeyScanned(hash, Kernel, bp.kernel);
    ImageKeyScanned(hash, Initrd, bp.initrd);
    KeysApart(ImageKey(hash, Kernel, bp.kernel));
    KeysApart(ImageKey(hash, Initrd, bp.initrd));
  }

  lemma PutImageNowhereElse(hash: string -> string, s: Store, bp: Params)
    requires HashOk(hash) && Sound(hash, s)
    ensures var t := InternBoth(hash, s, bp);
      var t' := PutImage(hash, t, bp);
      t'.Keys == t.Keys && forall k | k in t && IsHostKey(k) :: t'[k] == t[k]
  {
    if bp.kernel != "" { RequestImage(hash, s, bp, Kernel); }
    if bp.initrd != "" { RequestImage(hash, s, bp, Initrd); }
  }

  lemma ImagesPutAlike(hash: string -> string, s: Store, bp: Params)
    requires HashOk(hash) && Sound(hash, s)
    ensures var t, u := PutImage(hash, InternBoth(hash, s, bp), bp), PutImage(hash, InternBoth(hash, Swept(s), bp), bp);
      && t.Keys == u.Keys && (forall k | k in t && !IsHostKey(k) :: u[k] == t[k])
      && (forall k | k in t && IsHostKey(k) :: k in s && t[k] == s[k] && u[k] == Swept(s)[k])
  {
    hide InternBoth, Sound, Interned;
    SweptInterned(hash, s);
    SoundIfInterned(hash, Swept(s));
    InternBothSwept(hash, s, bp);
    PutImageNowhereElse(hash, s, bp);
    PutImageNowhereElse(hash, Swept(s), bp);
  }

  // ---------------------------------------------------------------------- Store

  lemma StoreIsWrites(hash: string -> string, sm: Sm, s: Store, bp: Params, token: string)
    requires HashOk(hash) && Sound(hash, s)
    ensures Writes(hash, s, bp, StoreWrites(sm, bp), Stored(hash, sm, s, bp, token))
  {
    InternBothSwept(hash, s, bp);
    PutImageNowhereElse(hash, s, bp);
    KeysStay(hash, s, bp);
  }

  lemma KeysStay(hash: string -> string, s: Store, bp: Params)
    ensures s.Keys <= InternBoth(hash, s, bp).Keys
  {}

  lemma StoredAlike(hash: string -> string, sm: Sm, s: Store, bp: Params, token: string)
    requires HashOk(hash) && Sound(hash, s) && !Revives(hash, s, bp, StoreWrites(sm, bp))
    ensures Swept(Stored(hash, sm, s, bp, token)) == Stored(hash, sm, Swept(s), bp, token)
  {
    hide InternBoth, Sound, Interned, Revives, HostsOf, Writes;
    var t, u := Stored(hash, sm, s, bp, token), Stored(hash, sm, Swept(s), bp, token);
    StoreIsWrites(hash, sm, s, bp, token);
    InternBothOk(hash, s, bp);
    InternBothSwept(hash, s, bp);
    if Targets(sm, bp) != [] {
      KeysApart(Ref(hash, Kernel, bp.kernel));
      KeysApart(Ref(hash, Initrd, bp.initrd));
    } else {
      ImagesPutAlike(hash, s, bp);
    }
    SweptAlike(hash, s, bp, StoreWrites(sm, bp), t, u);
  }

  lemma RevivedByStore(hash: string -> string, sm: Sm, s: Store, bp: Params, token: string)
    requires HashOk(hash) && Sound(hash, s) && Revives(hash, s, bp, StoreWrites(sm, bp))
    ensures HostsOf(Stored(hash, sm, s, bp, token)) != AbstractStored(sm, AbstractOf(hash, s), bp, token).hosts
  {
    var ty, k :| WaitsFor(hash, s, bp, ty, k) && k !in StoreWrites(sm, bp);
    StoreIsWrites(hash, sm, s, bp, token);
    RequestImage(hash, s, bp, ty);
    RevivedEntry(hash, s, bp, StoreWrites(sm, bp), Stored(hash, sm, s, bp, token), ty, k);
  }

  /** On any store that a run can reach, a store request does what its
      counterpart does exactly when it revives no reference. */
  lemma StoreRefinesIff(hash: string -> string, sm: Sm, s: Store, bp: Params, token: string)
    requires HashOk(hash) && Sound(hash, s) && NoClashes(hash, s, bp)
    ensures Sound(hash, Stored(hash, sm, s, bp, token))
    ensures AbstractOf(hash, Stored(hash, sm, s, bp, token)) == AbstractStored(sm, AbstractOf(hash, s), bp, token)
            <==> !Revives(hash, s, bp, StoreWrites(sm, bp))
  {
    StoreKeepsInterned(hash, sm, s, bp, token);
    if Revives(hash, s, bp, StoreWrites(sm, bp)) {
      RevivedByStore(hash, sm, s, bp, token);
    } else {
      StoredAlike(hash, sm, s, bp, token);
      SweptMeaning(hash, s);
      SweptNoClashes(hash, s, bp);
      StoreRefines(hash, sm, Swept(s), bp, token);
      SweptMeaning(hash, Stored(hash, sm, s, bp, token));
    }
  }

  // --------------------------------------------------------------------- Update

  lemma ChoicesStay(hash: string -> string, sm: Sm, s: Store, bp: Params)
    requires HashOk(hash)
    ensures Choices(sm, InternBoth(hash, s, bp).Keys, bp) == Choices(sm, s.Keys, bp)
    ensures Swept(s).Keys == s.Keys && AllHostKeys(Used(Choices(sm, s.Keys, bp)))
  {
    InternBothSwept(hash, s, bp);
    KeysStay(hash, s, bp);
    forall name ensures Known(InternBoth(hash, s, bp).Keys, name) <==> Known(s.Keys, name) {
      assert IsHostKey(HostKey(name));
    }
    SameChoices(sm, InternBoth(hash, s, bp).Keys, s.Keys, bp);
    HostChoices(sm, s, bp);
  }

  lemma UpdateIsWrites(hash: string -> string, sm: Sm, s: Store, bp: Params)
    requires HashOk(hash) && Sound(hash, s)
    ensures Writes(hash, s, bp, UpdateWrites(sm, s, bp), UpdatedStore(hash, sm, s, bp))
  {
    ChoicesStay(hash, sm, s, bp);
    InternBothSwept(hash, s, bp);
    PutImageNowhereElse(hash, s, bp);
    KeysStay(hash, s, bp);
  }

  /** A patched reference is a new one or, as no image of its type is stored by
      a request that does not name it, dangles as before. */
  lemma PatchedAlike(hash: string -> string, s: Store, bp: Params, t: Store, k: Key)
    requires HashOk(hash) && Sound(hash, s) && k in s && IsHostKey(k)
    requires forall l | !IsHostKey(l) :: l in t <==> l in InternBoth(hash, s, bp)
    ensures var kernel, initrd := Ref(hash, Kernel, bp.kernel), Ref(hash, Initrd, bp.initrd);
      PatchedHost(SweptHost(s, AsHost(s[k])), bp, kernel, initrd)
      == SweptHost(t, PatchedHost(AsHost(s[k]), bp, kernel, initrd))
  {
    var b := AsHost(s[k]);
    assert HostShape(s[k]);
    InternBothOk(hash, s, bp);
    UnnamedStays(hash, s, bp, t, Kernel, b.kernel);
    UnnamedStays(hash, s, bp, t, Initrd, b.initrd);
    KeysApart(Ref(hash, Kernel, bp.kernel));
    KeysApart(Ref(hash, Initrd, bp.initrd));
  }

  lemma UnnamedStays(hash: string -> string, s: Store, bp: Params, t: Store, ty: ImageType, ref: Key)
    requires HashOk(hash) && RefShape(ty, ref)
    requires forall l | !IsHostKey(l) :: l in t <==> l in InternBoth(hash, s, bp)
    ensures PathFor(ty, bp) == "" ==> SweptRef(t, ref) == SweptRef(s, ref)
  {
    KeysApart(ref);
    InternedKeys(hash, s, bp, ref);
    forall ty' ensures IsImageKey(ty', ImageKey(hash, ty', PathFor(ty', bp))) {
      ImageKeyScanned(hash, ty', PathFor(ty', bp));
    }
  }

  lemma UpdatedAlike(hash: string -> string, sm: Sm, s: Store, bp: Params)
    requires HashOk(hash) && Sound(hash, s) && !Revives(hash, s, bp, UpdateWrites(sm, s, bp))
    ensures Swept(UpdatedStore(hash, sm, s, bp)) == UpdatedStore(hash, sm, Swept(s), bp)
  {
    var t, u := UpdatedStore(hash, sm, s, bp), UpdatedStore(hash, sm, Swept(s), bp);
    UpdateIsWrites(hash, sm, s, bp);
    ChoicesStay(hash, sm, s, bp);
    ChoicesStay(hash, sm, Swept(s), bp);
    InternBothSwept(hash, s, bp);
    var cs := Choices(sm, s.Keys, bp);
    if NoneAbsent(cs) && Used(cs) != {} {
      forall k | k in t && IsHostKey(k) && k in Used(cs) ensures u[k] == Host(SweptHost(t, AsHost(t[k]))) {
        PatchedAlike(hash, s, bp, t, k);
      }
    } else if NoneAbsent(cs) {
      ImagesPutAlike(hash, s, bp);
    }
    SweptAlike(hash, s, bp, UpdateWrites(sm, s, bp), t, u);
  }

  lemma RevivedByUpdate(hash: string -> string, sm: Sm, s: Store, bp: Params)
    requires HashOk(hash) && Sound(hash, s) && Revives(hash, s, bp, UpdateWrites(sm, s, bp))
    ensures HostsOf(UpdatedStore(hash, sm, s, bp)) != AbstractUpdated(sm, AbstractOf(hash, s), bp).hosts
  {
    var ty, k :| WaitsFor(hash, s, bp, ty, k) && k !in UpdateWrites(sm, s, bp);
    UpdateIsWrites(hash, sm, s, bp);
    RequestImage(hash, s, bp, ty);
    ChoicesStay(hash, sm, s, bp);
    HostChoices(sm, s, bp);
    RevivedEntry(hash, s, bp, UpdateWrites(sm, s, bp), UpdatedStore(hash, sm, s, bp), ty, k);
  }

  /** So does an update request, refused or not. */
  lemma UpdateRefinesIff(hash: string -> string, sm: Sm, s: Store, bp: Params)
    requires HashOk(hash) && Sound(hash, s) && NoClashes(hash, s, bp)
    ensures Sound(hash, UpdatedStore(hash, sm, s, bp))
    ensures AbstractOf(hash, UpdatedStore(hash, sm, s, bp)) == AbstractUpdated(sm, AbstractOf(hash, s), bp)
            <==> !Revives(hash, s, bp, UpdateWrites(sm, s, bp))
  {
    UpdateKeepsInterned(hash, sm, s, bp);
    if Revives(hash, s, bp, UpdateWrites(sm, s, bp)) {
      RevivedByUpdate(hash, sm, s, bp);
    } else {
      UpdatedAlike(hash, sm, s, bp);
      SweptMeaning(hash, s);
      SweptNoClashes(hash, s, bp);
      UpdateRefines(hash, sm, Swept(s), bp);
      SweptMeaning(hash, UpdatedStore(hash, sm, s, bp));
    }
  }

  /** With every reference whole there is nothing to revive. */
  lemma InternedRevivesNone(hash: string -> string, s: Store, bp: Params, written: set<Key>)
    requires HashOk(hash) && Interned(hash, s)
    ensures !Revives(hash, s, bp, written)
  {
    forall ty, k | k in s && IsHostKey(k) ensures !WaitsFor(hash, s, bp, ty, k) {
      assert HostOk(s, s[k]);
      ImageKeyScanned(hash, ty, PathFor(ty, bp));
    }
  }
}
