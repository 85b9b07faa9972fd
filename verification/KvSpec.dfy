/** The key-value backend on values: what is stored under which key, the three
    operations on the store, and the simple state they are meant to keep, in
    which host entries hold image paths and no key is in sight. */
module KvSpec {
  import opened CloudInitMerge
  import opened KeyRanges

  // ------------------------------------------------------------------- stored

  datatype ImageType = Kernel | Initrd

  datatype ImageData = ImageData(path: string, params: string)

  const NO_IMAGE := ImageData("", "")

  /** A host entry; kernel and initrd are keys of images, or blank. */
  datatype BootDataStore = BootDataStore(params: string, kernel: Key, initrd: Key, cloudInit: CloudInit,
                                         referralToken: string)

  datatype Value = Host(bds: BootDataStore) | Image(data: ImageData)

  type Store = map<Key, Value>

  /** The JSON of one kind decoded as the other keeps only its params. */
  function AsImage(v: Value): ImageData {
    match v case Image(d) => d case Host(b) => ImageData("", b.params)
  }

  function AsHost(v: Value): BootDataStore {
    match v case Host(b) => b case Image(d) => BootDataStore(d.params, "", "", NO_CLOUD_INIT, "")
  }

  // --------------------------------------------------------------------- keys

  const PARAMS_PREFIX: Key := "/params/"

  function TypeName(ty: ImageType): string {
    match ty case Kernel => "kernel" case Initrd => "initrd"
  }

  function MakeKey(key: string, subkey: string): Key {
    (if key != "" && key[0] != '/' then "/" + key else key) +
    (if subkey == "" then "" else if subkey[0] != '/' then "/" + subkey else subkey)
  }

  function ImagePrefix(ty: ImageType): Key { "/" + TypeName(ty) + "/" }

  function HostKey(name: string): Key { PARAMS_PREFIX + name }

  predicate IsHex(s: string) {
    s != "" && forall c | c in s :: '0' <= c <= '9' || 'a' <= c <= 'f'
  }

  /** The hash is a parameter; all that is known of it is its format. */
  ghost predicate HashOk(hash: string -> string) {
    forall path :: IsHex(hash(path))
  }

  function ImageKey(hash: string -> string, ty: ImageType, path: string): Key {
    MakeKey(TypeName(ty), hash(path))
  }

  predicate IsImageKey(ty: ImageType, k: Key) { Scanned(ImagePrefix(ty), k) }

  predicate IsHostKey(k: Key) { PARAMS_PREFIX <= k }

  lemma ImageKeyScanned(hash: string -> string, ty: ImageType, path: string)
    requires HashOk(hash)
    ensures IsImageKey(ty, ImageKey(hash, ty, path))
    ensures ImageKey(hash, ty, path) == ImagePrefix(ty) + hash(path)
  {
    assert IsHex(hash(path)) && hash(path)[0] in hash(path);
  }

  lemma KeysApart(k: Key)
    ensures !(IsImageKey(Kernel, k) && IsImageKey(Initrd, k))
    ensures !(IsHostKey(k) && (IsImageKey(Kernel, k) || IsImageKey(Initrd, k)))
  {
    if IsImageKey(Kernel, k) { assert k[1] == "/kernel/"[1]; }
    if IsImageKey(Initrd, k) { assert k[1] == "/initrd/"[1]; }
    if IsHostKey(k) { assert k[1] == "/params/"[1]; }
  }

  lemma HostKeyInjective(a: string, b: string)
    requires HostKey(a) == HostKey(b)
    ensures a == b
  {
    assert HostKey(a)[|PARAMS_PREFIX|..] == a && HostKey(b)[|PARAMS_PREFIX|..] == b;
  }

  // ----------------------------------------------------------------- invariant

  predicate ImageOk(hash: string -> string, s: Store, ty: ImageType, k: Key)
    requires k in s
  {
    s[k].Image? && s[k].data.path != "" && k == ImageKey(hash, ty, s[k].data.path)
  }

  predicate RefOk(s: Store, ty: ImageType, ref: Key) {
    ref == "" || (IsImageKey(ty, ref) && ref in s)
  }

  predicate HostOk(s: Store, v: Value) {
    v.Host? && RefOk(s, Kernel, v.bds.kernel) && RefOk(s, Initrd, v.bds.initrd)
  }

  ghost predicate ImagesInterned(hash: string -> string, s: Store) {
    forall ty, k | k in s && IsImageKey(ty, k) :: ImageOk(hash, s, ty, k)
  }

  /** Images are stored under the hash of their path, so no two keys of a type
      hold one path, and every reference of a host entry resolves. */
  ghost predicate Interned(hash: string -> string, s: Store) {
    && ImagesInterned(hash, s)
    && (forall k | k in s && IsHostKey(k) :: HostOk(s, s[k]))
  }

  /** A blank reference or one to an image of its type, stored or not. */
  predicate RefShape(ty: ImageType, ref: Key) { ref == "" || IsImageKey(ty, ref) }

  predicate HostShape(v: Value) {
    v.Host? && RefShape(Kernel, v.bds.kernel) && RefShape(Initrd, v.bds.initrd)
  }

  /** The same with one exception: in a host entry that the scan for host
      entries passes over, references may dangle. */
  ghost predicate Sound(hash: string -> string, s: Store) {
    && ImagesInterned(hash, s)
    && (forall k | k in s && IsHostKey(k) :: HostShape(s[k]) && (Scanned(PARAMS_PREFIX, k) ==> HostOk(s, s[k])))
  }

  lemma SoundIfInterned(hash: string -> string, s: Store)
    ensures Interned(hash, s) ==> Sound(hash, s)
    ensures Sound(hash, s) && HostsScanned(s) ==> Interned(hash, s)
  {}

  lemma OneKeyPerPath(hash: string -> string, s: Store, ty: ImageType, k: Key, l: Key)
    requires ImagesInterned(hash, s) && k in s && l in s && IsImageKey(ty, k) && IsImageKey(ty, l)
    requires s[k].Image? && s[l].Image? && s[k].data.path == s[l].data.path
    ensures k == l
  {}

  /** Every host entry is one that the scan for host entries finds. */
  predicate HostsScanned(s: Store) {
    forall k | k in s && IsHostKey(k) :: Scanned(PARAMS_PREFIX, k)
  }

  // --------------------------------------------------------------- simple state

  datatype Entry = Entry(params: string, kernel: string, initrd: string, cloudInit: CloudInit, referralToken: string)

  /** What the store means: host entries with image paths, and the parameters of
      each kernel and initrd path. */
  datatype Abstract = Abstract(hosts: map<Key, Entry>, kernels: map<string, string>, initrds: map<string, string>)

  function PathOf(s: Store, ref: Key): string {
    if ref != "" && ref in s then AsImage(s[ref]).path else ""
  }

  function EntryOf(s: Store, b: BootDataStore): Entry {
    Entry(b.params, PathOf(s, b.kernel), PathOf(s, b.initrd), b.cloudInit, b.referralToken)
  }

  function HostsOf(s: Store): map<Key, Entry> {
    map k | k in s && IsHostKey(k) :: EntryOf(s, AsHost(s[k]))
  }

  /** The path is stored, under its own key. */
  predicate HasImage(hash: string -> string, s: Store, ty: ImageType, path: string) {
    var k := ImageKey(hash, ty, path);
    path != "" && k in s && IsImageKey(ty, k) && AsImage(s[k]).path == path
  }

  ghost function ImagesOf(hash: string -> string, s: Store, ty: ImageType): (m: map<string, string>)
    requires ImagesInterned(hash, s)
    ensures forall p :: p in m <==> HasImage(hash, s, ty, p)
    ensures forall p | p in m && HasImage(hash, s, ty, p) :: m[p] == AsImage(s[ImageKey(hash, ty, p)]).params
  {
    assert forall k | k in s && IsImageKey(ty, k) :: ImageOk(hash, s, ty, k);
    map k | k in s && IsImageKey(ty, k) :: AsImage(s[k]).path := AsImage(s[k]).params
  }

  ghost function AbstractOf(hash: string -> string, s: Store): Abstract
    requires ImagesInterned(hash, s)
  {
    Abstract(HostsOf(s), ImagesOf(hash, s, Kernel), ImagesOf(hash, s, Initrd))
  }

  // ------------------------------------------------------------------- requests

  datatype Params = Params(hosts: seq<string>, macs: seq<string>, nids: seq<int>,
                           params: string, kernel: string, initrd: string, cloudInit: CloudInit)

  /** What the state manager knows: component ids by MAC and by NID. */
  datatype Sm = Sm(byMac: map<string, string>, byNid: map<int, string>)

  function Digits(n: nat): string {
    (if n < 10 then "" else Digits(n / 10)) + [(48 + n % 10) as char]
  }

  function NidName(nid: int): string {
    "nid" + (if nid < 0 then "-" + Digits(-nid) else Digits(nid))
  }

  function MacName(sm: Sm, mac: string): string { if mac in sm.byMac then sm.byMac[mac] else mac }

  function NidTarget(sm: Sm, nid: int): string { if nid in sm.byNid then sm.byNid[nid] else NidName(nid) }

  /** The entries a store request writes: hosts, or else macs, or else nids. */
  function Targets(sm: Sm, bp: Params): (names: seq<string>)
    ensures names == [] <==> bp.hosts == [] && bp.macs == [] && bp.nids == []
  {
    if bp.hosts != [] then bp.hosts
    else if bp.macs != [] then seq(|bp.macs|, i requires 0 <= i < |bp.macs| => MacName(sm, bp.macs[i]))
    else seq(|bp.nids|, i requires 0 <= i < |bp.nids| => NidTarget(sm, bp.nids[i]))
  }

  /** What one selector of an update request comes to. */
  datatype Choice = Skip | Use(name: string) | Absent(name: string)

  predicate Known(hosts: set<Key>, name: string) { HostKey(name) in hosts }

  function ChooseHost(hosts: set<Key>, name: string): Choice {
    if Known(hosts, name) then Use(name) else Absent(name)
  }

  function ChooseMac(sm: Sm, hosts: set<Key>, mac: string): Choice {
    if mac !in sm.byMac then Skip
    else if Known(hosts, sm.byMac[mac]) then Use(sm.byMac[mac])
    else ChooseHost(hosts, mac)
  }

  function ChooseNid(sm: Sm, hosts: set<Key>, nid: int): Choice {
    if nid !in sm.byNid then Skip
    else if Known(hosts, sm.byNid[nid]) then Use(sm.byNid[nid])
    else ChooseHost(hosts, NidName(nid))
  }

  function Choices(sm: Sm, hosts: set<Key>, bp: Params): seq<Choice> {
    seq(|bp.hosts|, i requires 0 <= i < |bp.hosts| => ChooseHost(hosts, bp.hosts[i])) +
    seq(|bp.macs|, i requires 0 <= i < |bp.macs| => ChooseMac(sm, hosts, bp.macs[i])) +
    seq(|bp.nids|, i requires 0 <= i < |bp.nids| => ChooseNid(sm, hosts, bp.nids[i]))
  }

  predicate NoneAbsent(cs: seq<Choice>) { forall c | c in cs :: !c.Absent? }

  function Used(cs: seq<Choice>): set<Key> { set c | c in cs && c.Use? :: HostKey(c.name) }

  /** The names a remove request asks to delete. */
  function RemovedNames(sm: Sm, bp: Params): seq<string> {
    bp.hosts + KnownMacs(sm, bp.macs) + seq(|bp.nids|, i requires 0 <= i < |bp.nids| => NidTarget(sm, bp.nids[i]))
  }

  function KnownMacs(sm: Sm, macs: seq<string>): seq<string> {
    if macs == [] then []
    else
      var rest, m := macs[..|macs| - 1], macs[|macs| - 1];
      KnownMacs(sm, rest) + if m in sm.byMac then [sm.byMac[m]] else []
  }

  function HostKeys(names: seq<string>): set<Key> { set n | n in names :: HostKey(n) }

  lemma HostKeysIff(names: seq<string>, name: string)
    ensures HostKey(name) in HostKeys(names) <==> name in names
  {
    if HostKey(name) in HostKeys(names) {
      var n :| n in names && HostKey(n) == HostKey(name);
      HostKeyInjective(n, name);
    }
  }

  // -------------------------------------------------------- the store's operations

  /** Find the key of an image path, storing the path when it is new. */
  function Intern(hash: string -> string, s: Store, ty: ImageType, path: string): Store {
    var k := ImageKey(hash, ty, path);
    if path == "" || (k in s && AsImage(s[k]).path == path) then s else s[k := Image(ImageData(path, ""))]
  }

  function Ref(hash: string -> string, ty: ImageType, path: string): Key {
    if path == "" then "" else ImageKey(hash, ty, path)
  }

  function InternBoth(hash: string -> string, s: Store, bp: Params): Store {
    Intern(hash, Intern(hash, s, Kernel, bp.kernel), Initrd, bp.initrd)
  }

  function PutHosts(s: Store, keys: set<Key>, b: BootDataStore): Store {
    map k | k in s.Keys + keys :: if k in keys then Host(b) else s[k]
  }

  /** With no host named, the parameters belong to the image itself. */
  function PutImage(hash: string -> string, s: Store, bp: Params): Store {
    if bp.kernel != "" then s[ImageKey(hash, Kernel, bp.kernel) := Image(ImageData(bp.kernel, bp.params))]
    else if bp.initrd != "" then s[ImageKey(hash, Initrd, bp.initrd) := Image(ImageData(bp.initrd, bp.params))]
    else s
  }

  function Stored(hash: string -> string, sm: Sm, s: Store, bp: Params, token: string): Store {
    var s1 := InternBoth(hash, s, bp);
    if Targets(sm, bp) != [] then
      PutHosts(s1, HostKeys(Targets(sm, bp)),
               BootDataStore(bp.params, Ref(hash, Kernel, bp.kernel), Ref(hash, Initrd, bp.initrd), bp.cloudInit,
                             token))
    else PutImage(hash, s1, bp)
  }

  function PatchedHost(b: BootDataStore, bp: Params, kernelId: Key, initrdId: Key): BootDataStore {
    b.(params := if bp.params != "" then bp.params else b.params,
       kernel := if bp.kernel != "" then kernelId else b.kernel,
       initrd := if bp.initrd != "" then initrdId else b.initrd,
       cloudInit := Updated(b.cloudInit, bp.cloudInit))
  }

  function PatchHosts(hash: string -> string, s: Store, keys: set<Key>, bp: Params): Store {
    map k | k in s ::
      if k in keys then Host(PatchedHost(AsHost(s[k]), bp, Ref(hash, Kernel, bp.kernel), Ref(hash, Initrd, bp.initrd)))
      else s[k]
  }

  function UpdatedStore(hash: string -> string, sm: Sm, s: Store, bp: Params): Store {
    var s1 := InternBoth(hash, s, bp);
    var cs := Choices(sm, s1.Keys, bp);
    if !NoneAbsent(cs) then s1
    else if Used(cs) != {} then PatchHosts(hash, s1, Used(cs), bp)
    else PutImage(hash, s1, bp)
  }

  /** Delete the image of a path and clear the references the scan finds. */
  function ImageRemoved(hash: string -> string, s: Store, ty: ImageType, path: string): Store {
    var key := ImageKey(hash, ty, path);
    if path == "" || key !in s || AsImage(s[key]).path != path then s
    else map k | k in s && k != key :: if Scanned(PARAMS_PREFIX, k) then Cleared(ty, key, s[k]) else s[k]
  }

  function Cleared(ty: ImageType, key: Key, v: Value): Value {
    var b := AsHost(v);
    match ty
    case Kernel => if b.kernel == key then Host(b.(kernel := "")) else v
    case Initrd => if b.initrd == key then Host(b.(initrd := "")) else v
  }

  function RemovedStore(hash: string -> string, sm: Sm, s: Store, bp: Params): Store {
    ImageRemoved(hash, ImageRemoved(hash, s - HostKeys(RemovedNames(sm, bp)), Kernel, bp.kernel), Initrd, bp.initrd)
  }

  // ------------------------------------------------- the operations it should be

  function AddImage(m: map<string, string>, path: string): map<string, string> {
    if path == "" || path in m then m else m[path := ""]
  }

  function AbstractIntern(a: Abstract, bp: Params): Abstract {
    a.(kernels := AddImage(a.kernels, bp.kernel), initrds := AddImage(a.initrds, bp.initrd))
  }

  function AbstractImage(a: Abstract, bp: Params): Abstract {
    if bp.kernel != "" then a.(kernels := a.kernels[bp.kernel := bp.params])
    else if bp.initrd != "" then a.(initrds := a.initrds[bp.initrd := bp.params])
    else a
  }

  function PutEntries(hosts: map<Key, Entry>, keys: set<Key>, e: Entry): map<Key, Entry> {
    map k | k in hosts.Keys + keys :: if k in keys then e else hosts[k]
  }

  function AbstractStored(sm: Sm, a: Abstract, bp: Params, token: string): Abstract {
    var a1 := AbstractIntern(a, bp);
    if Targets(sm, bp) != [] then
      a1.(hosts := PutEntries(a1.hosts, HostKeys(Targets(sm, bp)),
                              Entry(bp.params, bp.kernel, bp.initrd, bp.cloudInit, token)))
    else AbstractImage(a1, bp)
  }

  /** The non-blank fields replace the old ones, and cloud-init data is patched. */
  function PatchedEntry(e: Entry, bp: Params): Entry {
    e.(params := if bp.params != "" then bp.params else e.params,
       kernel := if bp.kernel != "" then bp.kernel else e.kernel,
       initrd := if bp.initrd != "" then bp.initrd else e.initrd,
       cloudInit := Updated(e.cloudInit, bp.cloudInit))
  }

  function PatchEntries(hosts: map<Key, Entry>, keys: set<Key>, bp: Params): map<Key, Entry> {
    map k | k in hosts :: if k in keys then PatchedEntry(hosts[k], bp) else hosts[k]
  }

  function AbstractUpdated(sm: Sm, a: Abstract, bp: Params): Abstract {
    var a1 := AbstractIntern(a, bp);
    var cs := Choices(sm, a.hosts.Keys, bp);
    if !NoneAbsent(cs) then a1
    else if Used(cs) != {} then a1.(hosts := PatchEntries(a1.hosts, Used(cs), bp))
    else AbstractImage(a1, bp)
  }

  function ClearedEntry(e: Entry, bp: Params): Entry {
    e.(kernel := if e.kernel == bp.kernel then "" else e.kernel,
       initrd := if e.initrd == bp.initrd then "" else e.initrd)
  }

  function AbstractRemoved(sm: Sm, a: Abstract, bp: Params): Abstract {
    Abstract(
      map k | k in a.hosts && k !in HostKeys(RemovedNames(sm, bp)) :: ClearedEntry(a.hosts[k], bp),
      a.kernels - {bp.kernel},
      a.initrds - {bp.initrd})
  }

  // -------------------------------------------------------------- looking it up

  datatype BootData = BootData(params: string, kernel: ImageData, initrd: ImageData, cloudInit: CloudInit,
                               referralToken: string)

  function ImageAt(s: Store, ref: Key): ImageData {
    var key := MakeKey(ref, "");
    if ref != "" && key in s then AsImage(s[key]) else NO_IMAGE
  }

  lemma ImageAtRef(s: Store, ty: ImageType, ref: Key)
    requires RefOk(s, ty, ref)
    ensures ImageAt(s, ref) == if ref == "" then NO_IMAGE else AsImage(s[ref])
    ensures ImageAt(s, ref).path == PathOf(s, ref)
  {
    if ref != "" {
      assert ref[0] == ImagePrefix(ty)[0] == '/';
      assert MakeKey(ref, "") == ref;
    }
  }

  /** A host entry with the images its references lead to. */
  function Converted(s: Store, b: BootDataStore): BootData {
    BootData(b.params, ImageAt(s, b.kernel), ImageAt(s, b.initrd), b.cloudInit, b.referralToken)
  }
}
