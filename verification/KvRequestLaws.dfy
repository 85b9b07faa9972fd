/** What requests to the key-value store mean in plain words: under which keys
    entries are written, taken out and patched, and with what. */
module KvRequestLaws {
  import opened CloudInitMerge
  import opened KeyRanges
  import opened KvLaws
  import opened KvRevival
  import opened KvRuns
  import opened KvSpec

  // ----------------------------------------------------------------- NID names

  const DIGITS := "0123456789"

  /** The decimal number that the text stands for, leading zeros included. */
  function Value(s: string): int {
    if s == "" then 0 else Value(s[..|s| - 1]) * 10 + (s[|s| - 1] as int - DIGITS[0] as int)
  }

  /** The usual way to write the number. */
  predicate IsDecimal(s: string, n: nat) {
    s != "" && (forall c | c in s :: c in DIGITS) && Value(s) == n && (s[0] == DIGITS[0] ==> |s| == 1)
  }

  /** "nid" with the decimal number, with a minus when it is negative. */
  predicate IsNidName(name: string, nid: int) {
    var start := if nid < 0 then "nid-" else "nid";
    start <= name && IsDecimal(name[|start|..], if nid < 0 then -nid else nid)
  }

  lemma DigitAt(k: nat)
    requires k < 10
    ensures DIGITS[k] as int == 48 + k && DIGITS[k] in DIGITS
  {}

  lemma {:induction false} DigitsIsDecimal(n: nat)
    ensures IsDecimal(Digits(n), n)
    ensures n > 0 ==> Digits(n)[0] != DIGITS[0]
  {
    DigitAt(n % 10);
    var c := (48 + n % 10) as char;
    assert c == DIGITS[n % 10];
    if n < 10 {
      assert Digits(n) == [c] && Value([c]) == Value("") * 10 + (c as int - 48);
    } else {
      DigitsIsDecimal(n / 10);
      var d := Digits(n / 10);
      assert Digits(n) == d + [c] && (d + [c])[..|d|] == d;
    }
  }

  /** A number is written in one way only. */
  lemma {:induction false} OneDecimal(a: string, b: string, n: nat)
    requires IsDecimal(a, n) && IsDecimal(b, n)
    ensures a == b
    decreases |a|
  {
    LastDigit(a, n);
    LastDigit(b, n);
    if n >= 10 {
      OneDecimal(a[..|a| - 1], b[..|b| - 1], n / 10);
    }
    assert a == a[..|a| - 1] + [a[|a| - 1]] && b == b[..|b| - 1] + [b[|b| - 1]];
  }

  lemma {:induction false} ValueFrom(s: string)
    requires forall c | c in s :: c in DIGITS
    ensures 0 <= Value(s) && (s != "" && s[0] != DIGITS[0] ==> Value(s) > 0)
  {
    forall k | 0 <= k < 10 ensures DIGITS[k] as int == 48 + k { DigitAt(k); }
    if s != "" {
      assert s[|s| - 1] in s && s[0] in s;
      var rest := s[..|s| - 1];
      assert forall c | c in rest :: c in s;
      ValueFrom(rest);
      if rest != "" { assert rest[0] == s[0]; }
    }
  }

  /** The last digit is the remainder, and what is before it the quotient. */
  lemma LastDigit(s: string, n: nat)
    requires IsDecimal(s, n)
    ensures s[|s| - 1] as int == 48 + n % 10
    ensures n < 10 ==> |s| == 1
    ensures n >= 10 ==> |s| > 1 && IsDecimal(s[..|s| - 1], n / 10)
  {
    forall k | 0 <= k < 10 ensures DIGITS[k] as int == 48 + k { DigitAt(k); }
    assert s[|s| - 1] in s;
    var rest, last := s[..|s| - 1], s[|s| - 1] as int - 48;
    assert forall c | c in rest :: c in s;
    ValueFrom(rest);
    assert n == Value(rest) * 10 + last && 0 <= last < 10;
    if rest != "" { assert rest[0] == s[0]; }
  }

  lemma NidNameIff(name: string, nid: int)
    ensures IsNidName(name, nid) <==> name == NidName(nid)
  {
    hide IsDecimal, Digits;
    var n: nat := if nid < 0 then -nid else nid;
    var start := if nid < 0 then "nid-" else "nid";
    DigitsIsDecimal(n);
    assert NidName(nid) == start + Digits(n);
    if IsNidName(name, nid) {
      OneDecimal(name[|start|..], Digits(n), n);
      assert name == start + name[|start|..];
    }
  }

  // ------------------------------------------------------------- literal keys

  /** Where things are: host entries under "/params/", images under the name of
      their type and the hash of their path. */
  lemma WhereThingsAre(hash: string -> string, name: string, path: string)
    requires HashOk(hash)
    ensures HostKey(name) == "/params/" + name
    ensures ImageKey(hash, Kernel, path) == "/kernel/" + hash(path)
    ensures ImageKey(hash, Initrd, path) == "/initrd/" + hash(path)
  {
    ImageKeyScanned(hash, Kernel, path);
    ImageKeyScanned(hash, Initrd, path);
  }

  // ---------------------------------------------------------------------- Store

  /** The host that a MAC stands for: the component that has it, or the MAC. */
  ghost predicate NamedByMac(sm: Sm, macs: seq<string>, name: string) {
    exists m :: m in macs && if m in sm.byMac then sm.byMac[m] == name else m == name
  }

  ghost predicate NamedByNid(sm: Sm, nids: seq<int>, name: string) {
    exists k :: k in nids && if k in sm.byNid then sm.byNid[k] == name else IsNidName(name, k)
  }

  /** Hosts come first, then MACs, then NIDs. */
  ghost predicate StoreNames(sm: Sm, bp: Params, name: string) {
    if bp.hosts != [] then name in bp.hosts
    else if bp.macs != [] then NamedByMac(sm, bp.macs, name)
    else NamedByNid(sm, bp.nids, name)
  }

  lemma TargetsIff(sm: Sm, bp: Params, name: string)
    ensures name in Targets(sm, bp) <==> StoreNames(sm, bp, name)
  {
    var ts := Targets(sm, bp);
    forall k ensures IsNidName(name, k) <==> name == NidName(k) { NidNameIff(name, k); }
    if bp.hosts == [] && bp.macs != [] {
      forall i | 0 <= i < |bp.macs| ensures ts[i] in ts && bp.macs[i] in bp.macs {}
    } else if bp.hosts == [] {
      forall i | 0 <= i < |bp.nids| ensures ts[i] in ts && bp.nids[i] in bp.nids {}
    }
  }

  lemma IsHost(name: string)
    ensures "/params/" + name == HostKey(name) && IsHostKey(HostKey(name))
  {}

  /** A store request that names hosts, MACs or NIDs writes exactly the entries
      they stand for, with its parameters, images and cloud-init data, and leaves
      every other host entry as it was. */
  lemma StoreInPlainWords(hash: string -> string, sm: Sm, s: Store, bp: Params, token: string, name: string)
    requires HashOk(hash) && Sound(hash, s) && !(bp.hosts == [] && bp.macs == [] && bp.nids == [])
    ensures var t, k := Stored(hash, sm, s, bp, token), "/params/" + name;
      && (StoreNames(sm, bp, name) ==>
            k in t && t[k].Host?
            && var r := Converted(t, t[k].bds);
               r.params == bp.params && r.kernel.path == bp.kernel && r.initrd.path == bp.initrd
               && r.cloudInit == bp.cloudInit && r.referralToken == token)
      && (!StoreNames(sm, bp, name) ==> (k in t <==> k in s) && (k in t && k in s ==> t[k] == s[k]))
  {
    TargetsIff(sm, bp, name);
    HostKeysIff(Targets(sm, bp), name);
    IsHost(name);
    StoreIsWrites(hash, sm, s, bp, token);
    if StoreNames(sm, bp, name) { StoreThenLookup(hash, sm, s, bp, token, name); }
  }

  /** In particular for a MAC: the entry is that of its component, if the state
      manager knows it, and the MAC itself stays unless it names another one. */
  lemma StoreByMac(hash: string -> string, sm: Sm, s: Store, bp: Params, token: string, mac: string)
    requires HashOk(hash) && Sound(hash, s) && bp.hosts == [] && mac in bp.macs
    ensures var t := Stored(hash, sm, s, bp, token);
      var k := "/params/" + if mac in sm.byMac then sm.byMac[mac] else mac;
      k in t && t[k].Host?
      && Converted(t, t[k].bds).params == bp.params && Converted(t, t[k].bds).kernel.path == bp.kernel
    ensures var t, k := Stored(hash, sm, s, bp, token), "/params/" + mac;
      mac in sm.byMac && (forall m | m in bp.macs && m in sm.byMac :: sm.byMac[m] != mac) ==>
        (k in t <==> k in s) && (k in t && k in s ==> t[k] == s[k])
  {
    var name := if mac in sm.byMac then sm.byMac[mac] else mac;
    assert NamedByMac(sm, bp.macs, name);
    StoreInPlainWords(hash, sm, s, bp, token, name);
    StoreInPlainWords(hash, sm, s, bp, token, mac);
  }

  /** and for a NID, which else goes by "nid" with its number. */
  lemma StoreByNid(hash: string -> string, sm: Sm, s: Store, bp: Params, token: string, nid: int, name: string)
    requires HashOk(hash) && Sound(hash, s) && bp.hosts == [] && bp.macs == [] && nid in bp.nids
    requires if nid in sm.byNid then name == sm.byNid[nid] else IsNidName(name, nid)
    ensures var t, k := Stored(hash, sm, s, bp, token), "/params/" + name;
      k in t && t[k].Host?
      && Converted(t, t[k].bds).params == bp.params && Converted(t, t[k].bds).kernel.path == bp.kernel
  {
    assert NamedByNid(sm, bp.nids, name);
    StoreInPlainWords(hash, sm, s, bp, token, name);
  }

  /** With no host named the request gives the parameters to its kernel, or else
      to its initrd, and no host entry changes. */
  lemma StoreForImage(hash: string -> string, sm: Sm, s: Store, bp: Params, token: string)
    requires HashOk(hash) && Sound(hash, s) && bp.hosts == [] && bp.macs == [] && bp.nids == []
    ensures var t := Stored(hash, sm, s, bp, token);
      && (forall name :: ("/params/" + name in t <==> "/params/" + name in s)
            && ("/params/" + name in t && "/params/" + name in s ==> t["/params/" + name] == s["/params/" + name]))
      && (bp.kernel != "" ==>
            var k := "/kernel/" + hash(bp.kernel); k in t && t[k] == Image(ImageData(bp.kernel, bp.params)))
      && (bp.kernel == "" && bp.initrd != "" ==>
            var k := "/initrd/" + hash(bp.initrd); k in t && t[k] == Image(ImageData(bp.initrd, bp.params)))
  {
    WhereThingsAre(hash, "", bp.kernel);
    WhereThingsAre(hash, "", bp.initrd);
    StoreIsWrites(hash, sm, s, bp, token);
    assert StoreWrites(sm, bp) == {};
    forall name ensures IsHostKey("/params/" + name) { IsHost(name); }
  }

  /** What an image was given is what every host that uses it gets. */
  lemma LookupGivesImage(hash: string -> string, s: Store, name: string)
    requires Sound(hash, s) && HostKey(name) in s && HostOk(s, s[HostKey(name)])
    ensures var b := s[HostKey(name)].bds;
      var r := Converted(s, b);
      && r.params == b.params && r.cloudInit == b.cloudInit && r.referralToken == b.referralToken
      && (b.kernel == "" ==> r.kernel == ImageData("", "")) && (b.kernel != "" ==> s[b.kernel] == Image(r.kernel))
      && (b.initrd == "" ==> r.initrd == ImageData("", "")) && (b.initrd != "" ==> s[b.initrd] == Image(r.initrd))
  {
    var b := s[HostKey(name)].bds;
    ImageAtRef(s, Kernel, b.kernel);
    ImageAtRef(s, Initrd, b.initrd);
    if b.kernel != "" { assert ImageOk(hash, s, Kernel, b.kernel); }
    if b.initrd != "" { assert ImageOk(hash, s, Initrd, b.initrd); }
  }

  // --------------------------------------------------------------------- Remove

  /** Hosts, the components of MACs that the state manager knows, and NIDs. */
  ghost predicate RemoveNames(sm: Sm, bp: Params, name: string) {
    || name in bp.hosts
    || (exists m :: m in bp.macs && m in sm.byMac && sm.byMac[m] == name)
    || NamedByNid(sm, bp.nids, name)
  }

  lemma {:induction false} KnownMacsIff(sm: Sm, macs: seq<string>, name: string)
    ensures name in KnownMacs(sm, macs) <==> exists m :: m in macs && m in sm.byMac && sm.byMac[m] == name
  {
    if macs != [] {
      KnownMacsIff(sm, macs[..|macs| - 1], name);
      assert macs == macs[..|macs| - 1] + [macs[|macs| - 1]];
    }
  }

  lemma RemovedNamesIff(sm: Sm, bp: Params, name: string)
    ensures name in RemovedNames(sm, bp) <==> RemoveNames(sm, bp, name)
  {
    KnownMacsIff(sm, bp.macs, name);
    forall k ensures IsNidName(name, k) <==> name == NidName(k) { NidNameIff(name, k); }
    var nids := seq(|bp.nids|, i requires 0 <= i < |bp.nids| => NidTarget(sm, bp.nids[i]));
    forall i | 0 <= i < |bp.nids| ensures nids[i] in nids && bp.nids[i] in bp.nids {}
  }

  /** A remove request takes out exactly the host entries it names. */
  lemma RemoveInPlainWords(hash: string -> string, sm: Sm, s: Store, bp: Params, name: string)
    requires HashOk(hash)
    ensures "/params/" + name in RemovedStore(hash, sm, s, bp) <==>
              "/params/" + name in s && !RemoveNames(sm, bp, name)
  {
    IsHost(name);
    RemovedNamesIff(sm, bp, name);
    HostKeysIff(RemovedNames(sm, bp), name);
    ImageKeyScanned(hash, Kernel, bp.kernel);
    ImageKeyScanned(hash, Initrd, bp.initrd);
    KeysApart(HostKey(name));
  }

  /** One kind of selector, and MACs that the state manager knows. */
  predicate OneKnownKind(sm: Sm, bp: Params) {
    || (bp.hosts != [] && bp.macs == [] && bp.nids == [])
    || (bp.hosts == [] && bp.macs != [] && bp.nids == [] && forall m | m in bp.macs :: m in sm.byMac)
    || (bp.hosts == [] && bp.macs == [] && bp.nids != [])
  }

  predicate SameSelectors(a: Params, b: Params) { a.hosts == b.hosts && a.macs == b.macs && a.nids == b.nids }

  /** A remove with the selectors of a store takes out exactly what the store
      wrote. */
  lemma RemoveTakesStored(hash: string -> string, sm: Sm, s: Store, bp: Params, token: string, r: Params, name: string)
    requires HashOk(hash) && OneKnownKind(sm, bp) && SameSelectors(bp, r)
    ensures var t := Stored(hash, sm, s, bp, token);
      "/params/" + name in RemovedStore(hash, sm, t, r) <==> "/params/" + name in t && !StoreNames(sm, bp, name)
  {
    RemoveInPlainWords(hash, sm, Stored(hash, sm, s, bp, token), r, name);
  }

  // --------------------------------------------------------------------- Update

  predicate Has(s: Store, name: string) { "/params/" + name in s }

  /** The entries an update is about: hosts, and for MACs and NIDs that the state
      manager knows that of the component or else that of the MAC or NID. */
  ghost predicate UpdateNames(sm: Sm, s: Store, bp: Params, name: string) {
    || name in bp.hosts
    || (exists m :: m in bp.macs && m in sm.byMac && if Has(s, sm.byMac[m]) then sm.byMac[m] == name else m == name)
    || (exists k :: k in bp.nids && k in sm.byNid
          && if Has(s, sm.byNid[k]) then sm.byNid[k] == name else IsNidName(name, k))
  }

  lemma NidNamed(nid: int)
    ensures IsNidName(NidName(nid), nid)
  {
    NidNameIff(NidName(nid), nid);
  }

  /** Each choice is for a name that the update is about, and whether it is
      refused depends on that entry being there. */
  lemma ChosenIff(sm: Sm, s: Store, bp: Params, name: string)
    ensures Use(name) in Choices(sm, s.Keys, bp) <==> UpdateNames(sm, s, bp, name) && Has(s, name)
    ensures Absent(name) in Choices(sm, s.Keys, bp) <==> UpdateNames(sm, s, bp, name) && !Has(s, name)
  {
    var hs := seq(|bp.hosts|, i requires 0 <= i < |bp.hosts| => ChooseHost(s.Keys, bp.hosts[i]));
    var ms := seq(|bp.macs|, i requires 0 <= i < |bp.macs| => ChooseMac(sm, s.Keys, bp.macs[i]));
    var ns := seq(|bp.nids|, i requires 0 <= i < |bp.nids| => ChooseNid(sm, s.Keys, bp.nids[i]));
    assert Choices(sm, s.Keys, bp) == hs + ms + ns;
    var c := if Has(s, name) then Use(name) else Absent(name);
    var d := if Has(s, name) then Absent(name) else Use(name);
    IsHost(name);
    HostChosen(s, bp, hs, name);
    MacChosen(sm, s, bp, ms, name);
    NidChosen(sm, s, bp, ns, name);
  }

  lemma HostChosen(s: Store, bp: Params, hs: seq<Choice>, name: string)
    requires |hs| == |bp.hosts| && forall i | 0 <= i < |hs| :: hs[i] == ChooseHost(s.Keys, bp.hosts[i])
    ensures Use(name) in hs <==> name in bp.hosts && Has(s, name)
    ensures Absent(name) in hs <==> name in bp.hosts && !Has(s, name)
  {
    forall i | 0 <= i < |hs| ensures hs[i] in hs && bp.hosts[i] in bp.hosts {}
  }

  lemma MacChosen(sm: Sm, s: Store, bp: Params, ms: seq<Choice>, name: string)
    requires |ms| == |bp.macs| && forall i | 0 <= i < |ms| :: ms[i] == ChooseMac(sm, s.Keys, bp.macs[i])
    ensures var named := exists m :: m in bp.macs && m in sm.byMac
                           && if Has(s, sm.byMac[m]) then sm.byMac[m] == name else m == name;
      (Use(name) in ms <==> named && Has(s, name)) && (Absent(name) in ms <==> named && !Has(s, name))
  {
    forall i | 0 <= i < |ms| ensures ms[i] in ms && bp.macs[i] in bp.macs {}
  }

  lemma NidChosen(sm: Sm, s: Store, bp: Params, ns: seq<Choice>, name: string)
    requires |ns| == |bp.nids| && forall i | 0 <= i < |ns| :: ns[i] == ChooseNid(sm, s.Keys, bp.nids[i])
    ensures var named := exists k :: k in bp.nids && k in sm.byNid
                           && if Has(s, sm.byNid[k]) then sm.byNid[k] == name else IsNidName(name, k);
      (Use(name) in ns <==> named && Has(s, name)) && (Absent(name) in ns <==> named && !Has(s, name))
  {
    forall k ensures IsNidName(name, k) <==> name == NidName(k) { NidNameIff(name, k); }
    forall i | 0 <= i < |ns| ensures ns[i] in ns && bp.nids[i] in bp.nids {}
  }

  /** Every entry that the update is about is there. */
  ghost predicate AllHere(sm: Sm, s: Store, bp: Params) {
    forall name | UpdateNames(sm, s, bp, name) :: Has(s, name)
  }

  lemma AcceptedIff(sm: Sm, s: Store, bp: Params)
    ensures NoneAbsent(Choices(sm, s.Keys, bp)) <==> AllHere(sm, s, bp)
  {
    var cs := Choices(sm, s.Keys, bp);
    forall name
      ensures Absent(name) in cs <==> UpdateNames(sm, s, bp, name) && !Has(s, name)
    {
      ChosenIff(sm, s, bp, name);
    }
    if !NoneAbsent(cs) {
      var c :| c in cs && c.Absent?;
      assert Absent(c.name) in cs;
    }
  }

  lemma UsedIff(sm: Sm, s: Store, bp: Params, name: string)
    requires AllHere(sm, s, bp)
    ensures HostKey(name) in Used(Choices(sm, s.Keys, bp)) <==> UpdateNames(sm, s, bp, name)
  {
    ChosenIff(sm, s, bp, name);
    var cs := Choices(sm, s.Keys, bp);
    if HostKey(name) in Used(cs) {
      var c :| c in cs && c.Use? && HostKey(c.name) == HostKey(name);
      HostKeyInjective(c.name, name);
      assert c == Use(name);
    }
  }

  /** A given value replaces the old one. */
  predicate Given(before: string, value: string, after: string) {
    (value != "" ==> after == value) && (value == "" ==> after == before)
  }

  /** Host entries before and after one patch, image paths for image keys. */
  predicate Patched(e: Entry, bp: Params, e': Entry) {
    && Given(e.params, bp.params, e'.params) && Given(e.kernel, bp.kernel, e'.kernel)
    && Given(e.initrd, bp.initrd, e'.initrd) && e'.referralToken == e.referralToken
    && CloudInitPatched(e.cloudInit, bp.cloudInit, e'.cloudInit)
  }

  lemma PatchedEntryIs(e: Entry, bp: Params)
    ensures Patched(e, bp, PatchedEntry(e, bp))
  {
    UpdatedParts(e.cloudInit, bp.cloudInit);
  }

  /** One host entry in the update of the simple state. */
  lemma UpdateAt(hash: string -> string, sm: Sm, s: Store, bp: Params, k: Key)
    requires HashOk(hash) && Sound(hash, s) && NoClashes(hash, s, bp) && k in HostsOf(s)
    requires !Revives(hash, s, bp, UpdateWrites(sm, s, bp))
    ensures var hosts, hosts', cs := HostsOf(s), HostsOf(UpdatedStore(hash, sm, s, bp)), Choices(sm, s.Keys, bp);
      k in hosts'
      && (NoneAbsent(cs) && k in Used(cs) ==> Patched(hosts[k], bp, hosts'[k]))
      && (!NoneAbsent(cs) || k !in Used(cs) ==> hosts'[k] == hosts[k])
  {
    hide ImagesInterned, HostOk, NoClashes, Revives, Choices, Used, UpdatedStore, NoneAbsent, PatchedEntry, Patched;
    hide HostsOf, AbstractUpdated;
    UpdateRefinesIff(hash, sm, s, bp);
    HostChoices(sm, s, bp);
    AbstractUpdatedAt(sm, AbstractOf(hash, s), bp, k);
    PatchedEntryIs(HostsOf(s)[k], bp);
  }

  /** An update is refused exactly when an entry that it is about is missing, and
      then no host entry changes; else these are patched and no other is. */
  lemma UpdateInPlainWords(hash: string -> string, sm: Sm, s: Store, bp: Params, name: string)
    requires HashOk(hash) && Sound(hash, s) && NoClashes(hash, s, bp) && Has(s, name)
    requires !Revives(hash, s, bp, UpdateWrites(sm, s, bp))
    ensures NoneAbsent(Choices(sm, s.Keys, bp)) <==> AllHere(sm, s, bp)
    ensures var k, hosts, hosts' := HostKey(name), HostsOf(s), HostsOf(UpdatedStore(hash, sm, s, bp));
      k in hosts && k in hosts'
      && (AllHere(sm, s, bp) && UpdateNames(sm, s, bp, name) ==> Patched(hosts[k], bp, hosts'[k]))
      && (!AllHere(sm, s, bp) || !UpdateNames(sm, s, bp, name) ==> hosts'[k] == hosts[k])
  {
    hide Sound, NoClashes, Revives, Choices, Used, UpdatedStore, AllHere, UpdateNames, NoneAbsent, Patched, HostsOf;
    AcceptedIff(sm, s, bp);
    HostsOfHas(s, name);
    UpdateAt(hash, sm, s, bp, HostKey(name));
    if AllHere(sm, s, bp) { UsedIff(sm, s, bp, name); }
  }

  lemma HostsOfHas(s: Store, name: string)
    ensures HostKey(name) in HostsOf(s) <==> Has(s, name)
  {
    IsHost(name);
  }

  lemma AbstractUpdatedAt(sm: Sm, a: Abstract, bp: Params, k: Key)
    requires k in a.hosts
    ensures var hosts, cs := AbstractUpdated(sm, a, bp).hosts, Choices(sm, a.hosts.Keys, bp);
      k in hosts && hosts[k] == if NoneAbsent(cs) && k in Used(cs) then PatchedEntry(a.hosts[k], bp) else a.hosts[k]
  {}

  /** Right after a store an update with the same selectors, known to the state
      manager, is accepted and is about exactly what the store wrote. */
  lemma UpdateTakesStored(hash: string -> string, sm: Sm, s: Store, bp: Params, token: string, u: Params, name: string)
    requires HashOk(hash) && Sound(hash, s) && OneKnownKind(sm, bp) && SameSelectors(bp, u)
    requires forall k | k in bp.nids :: k in sm.byNid
    ensures var t := Stored(hash, sm, s, bp, token);
      AllHere(sm, t, u) && (UpdateNames(sm, t, u, name) <==> StoreNames(sm, bp, name))
  {
    var t := Stored(hash, sm, s, bp, token);
    forall n | StoreNames(sm, bp, n) ensures Has(t, n) { StoreInPlainWords(hash, sm, s, bp, token, n); }
    forall m | m in bp.macs && bp.hosts == [] ensures Has(t, sm.byMac[m]) {
      assert NamedByMac(sm, bp.macs, sm.byMac[m]);
    }
    forall k | k in bp.nids && bp.hosts == [] && bp.macs == [] ensures Has(t, sm.byNid[k]) {
      assert NamedByNid(sm, bp.nids, sm.byNid[k]);
    }
  }
}
