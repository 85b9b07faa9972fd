/** Whole runs of the key-value backend: what always holds, when every reference
    resolves, and when a run cannot be told from one on the simple state. */
module KvRuns {
  import opened KeyRanges
  import opened KvLaws
  import opened KvRemoval
  import opened KvRevival
  import opened KvSpec

  datatype Op = StoreOp(bp: Params, token: string) | UpdateOp(bp: Params) | RemoveOp(bp: Params)

  /** An operation with what the state manager knew when it ran. */
  datatype Call = Call(sm: Sm, op: Op)

  function Step(hash: string -> string, s: Store, c: Call): Store {
    match c.op
    case StoreOp(bp, token) => Stored(hash, c.sm, s, bp, token)
    case UpdateOp(bp) => UpdatedStore(hash, c.sm, s, bp)
    case RemoveOp(bp) => RemovedStore(hash, c.sm, s, bp)
  }

  function Run(hash: string -> string, calls: seq<Call>): Store {
    if calls == [] then map[] else Step(hash, Run(hash, calls[..|calls| - 1]), calls[|calls| - 1])
  }

  function AbstractStep(a: Abstract, c: Call): Abstract {
    match c.op
    case StoreOp(bp, token) => AbstractStored(c.sm, a, bp, token)
    case UpdateOp(bp) => AbstractUpdated(c.sm, a, bp)
    case RemoveOp(bp) => AbstractRemoved(c.sm, a, bp)
  }

  function AbstractRun(calls: seq<Call>): Abstract {
    if calls == [] then Abstract(map[], map[], map[])
    else AbstractStep(AbstractRun(calls[..|calls| - 1]), calls[|calls| - 1])
  }

  // ------------------------------------------------------- the invariant, always

  /** After any operations, whatever the names and with or without hash
      collisions, no two keys of an image type hold one path and every reference
      resolves in the host entries that the scan finds. */
  lemma {:induction false} EveryRunIsSound(hash: string -> string, calls: seq<Call>)
    requires HashOk(hash)
    ensures Sound(hash, Run(hash, calls))
  {
    if calls != [] {
      EveryRunIsSound(hash, calls[..|calls| - 1]);
      StepKeepsSound(hash, Run(hash, calls[..|calls| - 1]), calls[|calls| - 1]);
    }
  }

  lemma StepKeepsSound(hash: string -> string, s: Store, c: Call)
    requires HashOk(hash) && Sound(hash, s)
    ensures Sound(hash, Step(hash, s, c))
  {
    hide Sound, Stored, UpdatedStore, RemovedStore, HashOk;
    match c.op
    case StoreOp(bp, token) => StoreKeepsInterned(hash, c.sm, s, bp, token);
    case UpdateOp(bp) => UpdateKeepsInterned(hash, c.sm, s, bp);
    case RemoveOp(bp) => RemoveRefines(hash, c.sm, s, bp);
  }

  /** The call removes an image that an entry uses which stays and which the
      scan passes over. */
  ghost predicate CallOverlooks(hash: string -> string, s: Store, c: Call) {
    c.op.RemoveOp? && RemoveOverlooks(hash, c.sm, s, c.op.bp)
  }

  lemma StepInternedIff(hash: string -> string, s: Store, c: Call)
    requires HashOk(hash) && Interned(hash, s)
    ensures Interned(hash, Step(hash, s, c)) <==> !CallOverlooks(hash, s, c)
  {
    SoundIfInterned(hash, s);
    match c.op
    case StoreOp(bp, token) => StoreKeepsInterned(hash, c.sm, s, bp, token);
    case UpdateOp(bp) => UpdateKeepsInterned(hash, c.sm, s, bp);
    case RemoveOp(bp) => RemoveInternedIff(hash, c.sm, s, bp);
  }

  lemma RunNext(hash: string -> string, calls: seq<Call>, n: nat)
    requires n < |calls|
    ensures Run(hash, calls[..n + 1]) == Step(hash, Run(hash, calls[..n]), calls[n])
    ensures AbstractRun(calls[..n + 1]) == AbstractStep(AbstractRun(calls[..n]), calls[n])
  {
    assert calls[..n + 1][..n] == calls[..n];
  }

  ghost predicate InternedThroughout(hash: string -> string, calls: seq<Call>) {
    forall n | 0 <= n <= |calls| :: Interned(hash, Run(hash, calls[..n]))
  }

  ghost predicate OverlooksNone(hash: string -> string, calls: seq<Call>) {
    forall n | 0 <= n < |calls| :: !CallOverlooks(hash, Run(hash, calls[..n]), calls[n])
  }

  lemma {:induction false} InternedUpTo(hash: string -> string, calls: seq<Call>, n: nat)
    requires HashOk(hash) && OverlooksNone(hash, calls) && n <= |calls|
    ensures Interned(hash, Run(hash, calls[..n]))
  {
    hide Interned, CallOverlooks, Step, HashOk, AbstractOf;
    if n == 0 {
      EmptyMeaning(hash);
      assert calls[..0] == [];
    } else {
      InternedUpTo(hash, calls, n - 1);
      StepInternedIff(hash, Run(hash, calls[..n - 1]), calls[n - 1]);
      RunNext(hash, calls, n - 1);
    }
  }

  /** All along a run every reference resolves, in every host entry, exactly when
      no remove in it overlooks one. */
  lemma InternedThroughoutIff(hash: string -> string, calls: seq<Call>)
    requires HashOk(hash)
    ensures InternedThroughout(hash, calls) <==> OverlooksNone(hash, calls)
  {
    if OverlooksNone(hash, calls) {
      forall n | 0 <= n <= |calls| ensures Interned(hash, Run(hash, calls[..n])) { InternedUpTo(hash, calls, n); }
    }
    if InternedThroughout(hash, calls) {
      forall n | 0 <= n < |calls| ensures !CallOverlooks(hash, Run(hash, calls[..n]), calls[n]) {
        assert Interned(hash, Run(hash, calls[..n])) && Interned(hash, Run(hash, calls[..n + 1]));
        StepInternedIff(hash, Run(hash, calls[..n]), calls[n]);
        RunNext(hash, calls, n);
      }
    }
  }

  /** Names under which entries are stored start with a character that the scan
      for host entries covers, as component ids, MACs, NIDs and tags do. */
  predicate NamesOk(c: Call) {
    c.op.StoreOp? ==> forall n | n in Targets(c.sm, c.op.bp) :: Scanned(PARAMS_PREFIX, HostKey(n))
  }

  lemma {:induction false} NamedRunIsScanned(hash: string -> string, calls: seq<Call>, n: nat)
    requires HashOk(hash) && (forall c | c in calls :: NamesOk(c)) && n <= |calls|
    ensures HostsScanned(Run(hash, calls[..n]))
  {
    if n > 0 {
      hide Sound, Step, NamesOk, HostsScanned;
      NamedRunIsScanned(hash, calls, n - 1);
      EveryRunIsSound(hash, calls[..n - 1]);
      RunNext(hash, calls, n - 1);
      assert calls[n - 1] in calls;
      StepKeepsScanned(hash, Run(hash, calls[..n - 1]), calls[n - 1]);
    } else {
      assert calls[..0] == [];
    }
  }

  lemma StepKeepsScanned(hash: string -> string, s: Store, c: Call)
    requires HashOk(hash) && Sound(hash, s) && HostsScanned(s) && NamesOk(c)
    ensures HostsScanned(Step(hash, s, c))
  {
    match c.op
    case StoreOp(bp, token) => StoreKeepsInterned(hash, c.sm, s, bp, token);
    case UpdateOp(bp) => UpdateKeepsInterned(hash, c.sm, s, bp);
    case RemoveOp(bp) => assert RemovedStore(hash, c.sm, s, bp).Keys <= s.Keys;
  }

  /** Runs that store entries under such names only overlook nothing. */
  lemma NamedRunOverlooksNone(hash: string -> string, calls: seq<Call>)
    requires HashOk(hash) && forall c | c in calls :: NamesOk(c)
    ensures OverlooksNone(hash, calls) && InternedThroughout(hash, calls)
  {
    forall n | 0 <= n < |calls| ensures !CallOverlooks(hash, Run(hash, calls[..n]), calls[n]) {
      NamedRunIsScanned(hash, calls, n);
      ScannedOverlooksNone(hash, calls[n].sm, Run(hash, calls[..n]), calls[n].op.bp);
    }
    InternedThroughoutIff(hash, calls);
  }

  // ------------------------------------------------------------ the simple state

  /** No two of these paths share a hash. */
  predicate Collisionless(hash: string -> string, paths: set<string>) {
    forall p, q | p in paths && q in paths && hash(p) == hash(q) :: p == q
  }

  predicate PathsIn(paths: set<string>, c: Call) {
    (c.op.bp.kernel == "" || c.op.bp.kernel in paths) && (c.op.bp.initrd == "" || c.op.bp.initrd in paths)
  }

  predicate ImagesIn(paths: set<string>, a: Abstract) {
    a.kernels.Keys <= paths && a.initrds.Keys <= paths
  }

  lemma CollisionlessNoClash(hash: string -> string, paths: set<string>, s: Store, ty: ImageType, path: string)
    requires HashOk(hash) && ImagesInterned(hash, s) && Collisionless(hash, paths)
    requires path == "" || path in paths
    requires ImagesOf(hash, s, ty).Keys <= paths
    ensures NoClash(hash, s, ty, path)
  {
    var k := ImageKey(hash, ty, path);
    if path != "" && k in s {
      ImageKeyScanned(hash, ty, path);
      assert ImageOk(hash, s, ty, k);
      var q := s[k].data.path;
      ImageKeyScanned(hash, ty, q);
      assert HasImage(hash, s, ty, q);
      assert hash(q) == k[|ImagePrefix(ty)|..] == hash(path);
    }
  }

  lemma StepKeepsPaths(paths: set<string>, a: Abstract, c: Call)
    requires ImagesIn(paths, a) && PathsIn(paths, c)
    ensures ImagesIn(paths, AbstractStep(a, c))
  {}

  lemma {:induction false} RunKeepsPaths(paths: set<string>, calls: seq<Call>, n: nat)
    requires n <= |calls| && forall c | c in calls :: PathsIn(paths, c)
    ensures ImagesIn(paths, AbstractRun(calls[..n]))
  {
    if n > 0 {
      RunKeepsPaths(paths, calls, n - 1);
      assert calls[n - 1] in calls && calls[..n][..n - 1] == calls[..n - 1];
      StepKeepsPaths(paths, AbstractRun(calls[..n - 1]), calls[n - 1]);
    }
  }

  lemma EmptyMeaning(hash: string -> string)
    ensures Interned(hash, map[]) && AbstractOf(hash, map[]) == Abstract(map[], map[], map[])
  {}

  /** The call stores an image that an entry still refers to from before it was
      removed, and does not write this entry. */
  ghost predicate CallRevives(hash: string -> string, s: Store, c: Call) {
    match c.op
    case StoreOp(bp, _) => Revives(hash, s, bp, StoreWrites(c.sm, bp))
    case UpdateOp(bp) => Revives(hash, s, bp, UpdateWrites(c.sm, s, bp))
    case RemoveOp(_) => false
  }

  lemma StepRefinesIff(hash: string -> string, paths: set<string>, s: Store, c: Call)
    requires HashOk(hash) && Collisionless(hash, paths) && Sound(hash, s)
    requires PathsIn(paths, c) && ImagesIn(paths, AbstractOf(hash, s))
    ensures Sound(hash, Step(hash, s, c))
    ensures AbstractOf(hash, Step(hash, s, c)) == AbstractStep(AbstractOf(hash, s), c) <==> !CallRevives(hash, s, c)
  {
    CollisionlessNoClash(hash, paths, s, Kernel, c.op.bp.kernel);
    CollisionlessNoClash(hash, paths, s, Initrd, c.op.bp.initrd);
    match c.op
    case StoreOp(bp, token) => StoreRefinesIff(hash, c.sm, s, bp, token);
    case UpdateOp(bp) => UpdateRefinesIff(hash, c.sm, s, bp);
    case RemoveOp(bp) => RemoveRefines(hash, c.sm, s, bp);
  }

  /** The store means what the simple operations produce. */
  ghost predicate Refines(hash: string -> string, calls: seq<Call>) {
    ImagesInterned(hash, Run(hash, calls)) && AbstractOf(hash, Run(hash, calls)) == AbstractRun(calls)
  }

  ghost predicate RefinesThroughout(hash: string -> string, calls: seq<Call>) {
    forall n | 0 <= n <= |calls| :: Refines(hash, calls[..n])
  }

  ghost predicate RevivesNone(hash: string -> string, calls: seq<Call>) {
    forall n | 0 <= n < |calls| :: !CallRevives(hash, Run(hash, calls[..n]), calls[n])
  }

  lemma EmptyRefines(hash: string -> string, calls: seq<Call>)
    ensures Refines(hash, calls[..0])
  {
    EmptyMeaning(hash);
    assert calls[..0] == [];
  }

  lemma NextRefinesIff(hash: string -> string, paths: set<string>, calls: seq<Call>, n: nat)
    requires HashOk(hash) && Collisionless(hash, paths) && (forall c | c in calls :: PathsIn(paths, c))
    requires n < |calls| && Refines(hash, calls[..n])
    ensures Refines(hash, calls[..n + 1]) <==> !CallRevives(hash, Run(hash, calls[..n]), calls[n])
  {
    EveryRunIsSound(hash, calls[..n]);
    RunKeepsPaths(paths, calls, n);
    assert calls[n] in calls;
    StepRefinesIff(hash, paths, Run(hash, calls[..n]), calls[n]);
    RunNext(hash, calls, n);
  }

  lemma {:induction false} RefinesUpTo(hash: string -> string, paths: set<string>, calls: seq<Call>, n: nat)
    requires HashOk(hash) && Collisionless(hash, paths) && (forall c | c in calls :: PathsIn(paths, c))
    requires RevivesNone(hash, calls) && n <= |calls|
    ensures Refines(hash, calls[..n])
  {
    hide Refines, CallRevives, Run, AbstractRun, HashOk, Collisionless, PathsIn;
    if n == 0 {
      EmptyRefines(hash, calls);
    } else {
      RefinesUpTo(hash, paths, calls, n - 1);
      NextRefinesIff(hash, paths, calls, n - 1);
    }
  }

  /** All along a run on paths that do not collide the store means exactly what
      the simple operations produce, if and only if no call revives a reference
      that a removal left behind. */
  lemma RunRefinesIff(hash: string -> string, paths: set<string>, calls: seq<Call>)
    requires HashOk(hash) && Collisionless(hash, paths) && (forall c | c in calls :: PathsIn(paths, c))
    ensures RefinesThroughout(hash, calls) <==> RevivesNone(hash, calls)
  {
    if RevivesNone(hash, calls) {
      forall n | 0 <= n <= |calls| ensures Refines(hash, calls[..n]) { RefinesUpTo(hash, paths, calls, n); }
    }
    if RefinesThroughout(hash, calls) {
      forall n | 0 <= n < |calls| ensures !CallRevives(hash, Run(hash, calls[..n]), calls[n]) {
        assert Refines(hash, calls[..n]) && Refines(hash, calls[..n + 1]);
        NextRefinesIff(hash, paths, calls, n);
      }
    }
  }

  /** In particular when no remove overlooks one, and then every reference of the
      store resolves as well. */
  lemma RunRefines(hash: string -> string, paths: set<string>, calls: seq<Call>)
    requires HashOk(hash) && Collisionless(hash, paths) && (forall c | c in calls :: PathsIn(paths, c))
    requires OverlooksNone(hash, calls)
    ensures InternedThroughout(hash, calls) && RefinesThroughout(hash, calls)
  {
    InternedThroughoutIff(hash, calls);
    forall n | 0 <= n < |calls| ensures !CallRevives(hash, Run(hash, calls[..n]), calls[n]) {
      var s, c := Run(hash, calls[..n]), calls[n];
      assert Interned(hash, s);
      InternedRevivesNone(hash, s, c.op.bp, StoreWrites(c.sm, c.op.bp));
      InternedRevivesNone(hash, s, c.op.bp, UpdateWrites(c.sm, s, c.op.bp));
    }
    RunRefinesIff(hash, paths, calls);
  }

  // ------------------------------------------------------------ store and lookup

  /** What was stored for a host is what a lookup returns, collisions or not. */
  lemma StoreThenLookup(hash: string -> string, sm: Sm, s: Store, bp: Params, token: string, name: string)
    requires HashOk(hash) && Sound(hash, s) && name in Targets(sm, bp)
    ensures var t := Stored(hash, sm, s, bp, token);
      HostKey(name) in t
      && var r := Converted(t, AsHost(t[HostKey(name)]));
         r.params == bp.params && r.kernel.path == bp.kernel && r.initrd.path == bp.initrd
         && r.cloudInit == bp.cloudInit && r.referralToken == token
  {
    InternBothOk(hash, s, bp);
    var s1, t := InternBoth(hash, s, bp), Stored(hash, sm, s, bp, token);
    var b := BootDataStore(bp.params, Ref(hash, Kernel, bp.kernel), Ref(hash, Initrd, bp.initrd), bp.cloudInit, token);
    assert HostOk(s1, Host(b)) && HostKey(name) in HostKeys(Targets(sm, bp));
    assert t[HostKey(name)] == Host(b);
    KeysApart(b.kernel);
    KeysApart(b.initrd);
    ImageAtRef(t, Kernel, b.kernel);
    ImageAtRef(t, Initrd, b.initrd);
  }

  lemma InternKeepsHere(hash: string -> string, s: Store, bp: Params, k: Key)
    requires HashOk(hash) && NoClashes(hash, s, bp) && k in s
    ensures k in InternBoth(hash, s, bp) && InternBoth(hash, s, bp)[k] == s[k]
  {}

  lemma ShapedRefAt(s: Store, ty: ImageType, ref: Key)
    requires RefShape(ty, ref)
    ensures ImageAt(s, ref) == if ref != "" && ref in s then AsImage(s[ref]) else NO_IMAGE
  {
    if ref != "" {
      assert ref[0] == ImagePrefix(ty)[0] == '/';
      assert MakeKey(ref, "") == ref;
    }
  }

  lemma OtherRefAt(hash: string -> string, s: Store, bp: Params, t: Store, k: Key, ty: ImageType)
    requires HashOk(hash) && Sound(hash, s) && NoClashes(hash, s, bp) && k in s && IsHostKey(k)
    requires forall l | !IsHostKey(l) ::
               (l in t <==> l in InternBoth(hash, s, bp)) && (l in t ==> t[l] == InternBoth(hash, s, bp)[l])
    ensures var ref := RefOf(ty, AsHost(s[k])); ImageAt(t, ref) == ImageAt(s, ref) <==> !WaitsFor(hash, s, bp, ty, k)
  {
    var ref := RefOf(ty, AsHost(s[k]));
    assert HostShape(s[k]);
    KeysApart(ref);
    ShapedRefAt(s, ty, ref);
    ShapedRefAt(t, ty, ref);
    InternedKeys(hash, s, bp, ref);
    if ref in s {
      InternKeepsHere(hash, s, bp, ref);
    } else if PathFor(ty, bp) != "" && ref == ImageKey(hash, ty, PathFor(ty, bp)) {
      RequestImage(hash, s, bp, ty);
    } else if ref != "" && ref in t {
      var ty' :| PathFor(ty', bp) != "" && ref == ImageKey(hash, ty', PathFor(ty', bp));
      ImageKeyScanned(hash, ty', PathFor(ty', bp));
    }
  }

  /** Another host's lookup answers as before, unless a stored path loses its key
      to a new path with the same hash, exactly when no reference of it is
      revived. */
  lemma StoreKeepsOtherLookupsIff(hash: string -> string, sm: Sm, s: Store, bp: Params, token: string, name: string)
    requires HashOk(hash) && Sound(hash, s) && NoClashes(hash, s, bp)
    requires Targets(sm, bp) != [] && name !in Targets(sm, bp) && HostKey(name) in s
    ensures var t, k := Stored(hash, sm, s, bp, token), HostKey(name);
      k in t
      && (Converted(t, AsHost(t[k])) == Converted(s, AsHost(s[k])) <==>
          !WaitsFor(hash, s, bp, Kernel, k) && !WaitsFor(hash, s, bp, Initrd, k))
  {
    var t, k := Stored(hash, sm, s, bp, token), HostKey(name);
    if k in HostKeys(Targets(sm, bp)) {
      var n :| n in Targets(sm, bp) && HostKey(n) == k;
      HostKeyInjective(n, name);
    }
    assert IsHostKey(k);
    InternKeepsHere(hash, s, bp, k);
    assert t[k] == s[k];
    OtherRefAt(hash, s, bp, t, k, Kernel);
    OtherRefAt(hash, s, bp, t, k, Initrd);
  }
}
