/** A run in which a removal overlooks a reference, and what comes of it. */
module KvMishap {
  import opened CloudInitMerge
  import opened KvRemoval
  import opened KvRevival
  import opened KvRuns
  import opened KvSpec

  const NO_STATE := Sm(map[], map[])

  function ForKernel(hosts: seq<string>, kernel: string): Params {
    Params(hosts, [], [], "", kernel, "", NO_CLOUD_INIT)
  }

  function StoreKernel(host: string): Call { Call(NO_STATE, StoreOp(ForKernel([host], "k"), "")) }

  const REMOVE_KERNEL := Call(NO_STATE, RemoveOp(ForKernel([], "k")))

  /** A host that the scan for host entries passes over. */
  const HIDDEN := "~"
  const OTHER := "x0c0s0b0n0"

  /** The two hosts get the kernel one after the other; in between it is removed. */
  const BAD_RUN := [StoreKernel(HIDDEN), REMOVE_KERNEL, StoreKernel(OTHER)]

  lemma HiddenStored(hash: string -> string)
    requires HashOk(hash)
    ensures var s, key := Step(hash, map[], StoreKernel(HIDDEN)), ImageKey(hash, Kernel, "k");
      && s.Keys == {key, HostKey(HIDDEN)} && s[key] == Image(ImageData("k", ""))
      && s[HostKey(HIDDEN)] == Host(BootDataStore("", key, "", NO_CLOUD_INIT, ""))
  {
    var bp := ForKernel([HIDDEN], "k");
    ImageKeyScanned(hash, Kernel, "k");
    KeysApart(ImageKey(hash, Kernel, "k"));
    assert HostKeys(Targets(NO_STATE, bp)) == {HostKey(HIDDEN)};
  }

  lemma KernelRemoved(hash: string -> string, s: Store)
    requires HashOk(hash) && s == Step(hash, map[], StoreKernel(HIDDEN))
    ensures CallOverlooks(hash, s, REMOVE_KERNEL)
    ensures Step(hash, s, REMOVE_KERNEL) == map[HostKey(HIDDEN) := s[HostKey(HIDDEN)]]
  {
    var key := ImageKey(hash, Kernel, "k");
    HiddenStored(hash);
    ImageKeyScanned(hash, Kernel, "k");
    KeysApart(key);
    assert HostKeys(RemovedNames(NO_STATE, REMOVE_KERNEL.op.bp)) == {};
    assert s - {} == s;
    assert HasImage(hash, s, Kernel, "k");
    assert Overlooked(s, Kernel, key);
  }

  lemma KernelRevived(hash: string -> string, s: Store)
    requires HashOk(hash)
             && s == map[HostKey(HIDDEN) := Host(BootDataStore("", ImageKey(hash, Kernel, "k"), "", NO_CLOUD_INIT, ""))]
    ensures CallRevives(hash, s, StoreKernel(OTHER))
  {
    var bp := ForKernel([OTHER], "k");
    ImageKeyScanned(hash, Kernel, "k");
    KeysApart(ImageKey(hash, Kernel, "k"));
    assert HostKeys(Targets(NO_STATE, bp)) == {HostKey(OTHER)};
    assert HostKey(OTHER)[8] != HostKey(HIDDEN)[8];
    assert WaitsFor(hash, s, bp, Kernel, HostKey(HIDDEN));
  }

  lemma BadRunStates(hash: string -> string)
    requires HashOk(hash)
    ensures Run(hash, BAD_RUN[..0]) == map[]
    ensures Run(hash, BAD_RUN[..1]) == Step(hash, map[], StoreKernel(HIDDEN))
    ensures Run(hash, BAD_RUN[..2]) == Step(hash, Run(hash, BAD_RUN[..1]), REMOVE_KERNEL)
  {
    hide Step;
    RunNext(hash, BAD_RUN, 0);
    RunNext(hash, BAD_RUN, 1);
    assert BAD_RUN[..0] == [];
  }

  lemma BadRunCalls(hash: string -> string)
    requires HashOk(hash)
    ensures !CallOverlooks(hash, Run(hash, BAD_RUN[..0]), BAD_RUN[0])
    ensures CallOverlooks(hash, Run(hash, BAD_RUN[..1]), BAD_RUN[1])
    ensures CallRevives(hash, Run(hash, BAD_RUN[..2]), BAD_RUN[2])
  {
    hide Step, Run, CallRevives;
    BadRunStates(hash);
    HiddenStored(hash);
    KernelRemoved(hash, Run(hash, BAD_RUN[..1]));
    KernelRevived(hash, Run(hash, BAD_RUN[..2]));
  }

  /** After the removal the hidden host refers to an image that is gone, and when
      the image is stored for another host, the hidden one has it again. */
  lemma OverlookedReference(hash: string -> string)
    requires HashOk(hash)
    ensures !InternedThroughout(hash, BAD_RUN) && !RefinesThroughout(hash, BAD_RUN)
  {
    hide Run, CallRevives, CallOverlooks, Collisionless, Refines, Interned;
    BadRunCalls(hash);
    InternedThroughoutIff(hash, BAD_RUN);
    assert Collisionless(hash, {"k"}) by { OnePath(hash); }
    RunRefinesIff(hash, {"k"}, BAD_RUN);
  }

  lemma OnePath(hash: string -> string)
    ensures Collisionless(hash, {"k"})
  {}
}
