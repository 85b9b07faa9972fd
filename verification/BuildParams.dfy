/** The parameters that the script builder adds to those of the boot data, one
    after the other. */
module BuildParams {
  import opened KernelParams

  datatype Param = Param(name: string, value: string)

  /** What the builder knows about the node and the service; blank if unknown. */
  datatype ScriptParams = ScriptParams(xname: string, nid: string, referralToken: string, mac: string)

  /** strings.ReplaceAll(mac, ":", "-") */
  function Dashed(mac: string): (r: string)
    ensures |r| == |mac| && forall i | 0 <= i < |mac| :: r[i] == if mac[i] == ':' then '-' else mac[i]
  {
    seq(|mac|, i requires 0 <= i < |mac| => if mac[i] == ':' then '-' else mac[i])
  }

  function Specials(sp: ScriptParams, address: string): (ps: seq<Param>)
    ensures |ps| == 5
  {
    [Param("xname=", sp.xname), Param("nid=", sp.nid), Param("bss_referral_token=", sp.referralToken),
     Param("BOOTIF=", if sp.mac == "" then "" else "01-" + Dashed(sp.mac)),
     Param("ds=", "nocloud-net;s=" + address + "/")]
  }

  function Base(params: string, kernel: string, initrd: string): string {
    params + (if kernel == "" then "" else " " + kernel) + (if initrd == "" then "" else " " + initrd)
  }

  function Chain(params: string, adds: seq<Param>): string {
    if adds == [] then params
    else
      var last := adds[|adds| - 1];
      WithParam(Chain(params, adds[..|adds| - 1]), last.name, last.value)
  }

  /** The parameters of the boot data, its kernel and its initrd. */
  method JoinParams(data: string, kernel: string, initrd: string) returns (params: string)
    ensures params == Base(data, kernel, initrd)
  {
    params := data;
    if kernel != "" { params := params + " " + kernel; }
    if initrd != "" { params := params + " " + initrd; }
    BaseParts(data, kernel, initrd);
  }

  lemma BaseParts(data: string, kernel: string, initrd: string)
    ensures var k := if kernel == "" then data else data + " " + kernel;
      Base(data, kernel, initrd) == if initrd == "" then k else k + " " + initrd
  {
    Assoc(data, " ", kernel);
    var k := if kernel == "" then data else data + " " + kernel;
    assert k == data + if kernel == "" then "" else " " + kernel;
    Assoc(k, " ", initrd);
    assert k + "" == k;
  }

  /** The calls of checkParam in the order of the source. */
  method AddSpecials(base: string, sp: ScriptParams, address: string) returns (params: string)
    ensures params == Chain(base, Specials(sp, address))
  {
    hide Chain, Split, ParamExists, Dashed;
    ghost var ps := Specials(sp, address);
    params := CheckParam(base, "xname=", sp.xname);
    params := CheckParam(params, "nid=", sp.nid);
    if sp.referralToken != "" { params := CheckParam(params, "bss_referral_token=", sp.referralToken); }
    if sp.mac != "" {
      var bootif := "01-" + Dashed(sp.mac);
      params := CheckParam(params, "BOOTIF=", bootif);
    }
    params := CheckParam(params, "ds=", "nocloud-net;s=" + address + "/");
    ChainOfFive(base, ps, params);
  }

  /** The parameter list before anything is substituted in it. */
  method Build(data: string, kernel: string, initrd: string, sp: ScriptParams, address: string)
    returns (params: string)
    ensures params == Chain(Base(data, kernel, initrd), Specials(sp, address))
  {
    params := JoinParams(data, kernel, initrd);
    params := AddSpecials(params, sp, address);
  }

  ghost function With(params: string, p: Param): string { WithParam(params, p.name, p.value) }

  lemma ChainOfFive(base: string, ps: seq<Param>, params: string)
    requires |ps| == 5
    requires params == With(With(With(With(With(base, ps[0]), ps[1]), ps[2]), ps[3]), ps[4])
    ensures params == Chain(base, ps)
  {
    hide WithParam;
    ChainNext(base, ps, 0);
    ChainNext(base, ps, 1);
    ChainNext(base, ps, 2);
    ChainNext(base, ps, 3);
    ChainNext(base, ps, 4);
    assert ps[..0] == [] && ps[..5] == ps;
  }

  lemma ChainNext(params: string, adds: seq<Param>, k: nat)
    requires k < |adds|
    ensures Chain(params, adds[..k + 1]) == WithParam(Chain(params, adds[..k]), adds[k].name, adds[k].value)
  {
    assert adds[..k + 1][..k] == adds[..k];
  }

  // ------------------------------------------------------------------ as tokens

  /** Some token starts with the name. */
  predicate Has(ts: seq<string>, name: string) { exists i :: 0 <= i < |ts| && name <= ts[i] }

  predicate Due(ts: seq<string>, p: Param) { p.value != "" && !Has(ts, p.name) }

  function Tokens(p: Param): seq<string> { Split(p.name + p.value) }

  /** Each parameter in turn, if it is due by then. */
  function TokensAfter(ts: seq<string>, adds: seq<Param>): seq<string> {
    if adds == [] then ts
    else
      var sofar, last := TokensAfter(ts, adds[..|adds| - 1]), adds[|adds| - 1];
      sofar + if Due(sofar, last) then Tokens(last) else []
  }

  /** The chain works on the token list: each parameter is added behind what is
      there when it is due. */
  lemma {:induction false} ChainTokens(params: string, adds: seq<Param>)
    ensures Split(Chain(params, adds)) == TokensAfter(Split(params), adds)
  {
    if adds != [] {
      var before, last := adds[..|adds| - 1], adds[|adds| - 1];
      ChainTokens(params, before);
      ParamTokens(Chain(params, before), last.name, last.value);
    }
  }

  /** All the parameters that were due at the start, in order. */
  function AllDue(ts: seq<string>, adds: seq<Param>): seq<string> {
    if adds == [] then ts
    else
      var last := adds[|adds| - 1];
      AllDue(ts, adds[..|adds| - 1]) + if Due(ts, last) then Tokens(last) else []
  }

  /** No parameter that is due brings a token that starts with the name of a
      later one that is due. */
  predicate NoneCovers(ts: seq<string>, adds: seq<Param>) {
    forall i, j | 0 <= i < j < |adds| && Due(ts, adds[i]) && Due(ts, adds[j]) ::
      !Has(Tokens(adds[i]), adds[j].name)
  }

  lemma HasEither(a: seq<string>, b: seq<string>, name: string)
    ensures Has(a + b, name) <==> Has(a, name) || Has(b, name)
  {
    if i :| 0 <= i < |a| && name <= a[i] {
      assert (a + b)[i] == a[i];
    }
    if i :| 0 <= i < |b| && name <= b[i] {
      assert (a + b)[|a| + i] == b[i];
    }
  }

  lemma {:induction false} AllDueHas(ts: seq<string>, adds: seq<Param>, name: string)
    ensures Has(AllDue(ts, adds), name) <==>
            Has(ts, name) || exists i :: 0 <= i < |adds| && Due(ts, adds[i]) && Has(Tokens(adds[i]), name)
  {
    if adds != [] {
      var before, last := adds[..|adds| - 1], adds[|adds| - 1];
      AllDueHas(ts, before, name);
      HasEither(AllDue(ts, before), if Due(ts, last) then Tokens(last) else [], name);
      assert forall i | 0 <= i < |before| :: before[i] == adds[i];
    }
  }

  lemma {:induction false} StillHas(ts: seq<string>, adds: seq<Param>, name: string)
    requires Has(ts, name)
    ensures Has(TokensAfter(ts, adds), name)
  {
    if adds != [] {
      var sofar, last := TokensAfter(ts, adds[..|adds| - 1]), adds[|adds| - 1];
      StillHas(ts, adds[..|adds| - 1], name);
      HasEither(sofar, if Due(sofar, last) then Tokens(last) else [], name);
    }
  }

  /** Every parameter that was due is added, each with its own tokens and in
      order, exactly when none is covered by one before it. */
  lemma {:induction false} AllDueAddedIff(ts: seq<string>, adds: seq<Param>)
    ensures TokensAfter(ts, adds) == AllDue(ts, adds) <==> NoneCovers(ts, adds)
    ensures TokensAfter(ts, adds) == AllDue(ts, adds) || |TokensAfter(ts, adds)| < |AllDue(ts, adds)|
  {
    if adds != [] {
      var before, last := adds[..|adds| - 1], adds[|adds| - 1];
      AllDueAddedIff(ts, before);
      if Has(ts, last.name) { StillHas(ts, before, last.name); }
      AllDueHas(ts, before, last.name);
      CoversLast(ts, adds);
    }
  }

  lemma CoversLast(ts: seq<string>, adds: seq<Param>)
    requires adds != []
    ensures var before, last := adds[..|adds| - 1], adds[|adds| - 1];
      NoneCovers(ts, adds) <==>
      NoneCovers(ts, before)
      && (Due(ts, last) ==> forall i | 0 <= i < |before| && Due(ts, before[i]) :: !Has(Tokens(before[i]), last.name))
  {}

  // -------------------------------------------------------- the five parameters

  predicate NoSpaces(sp: ScriptParams, address: string) {
    ' ' !in sp.xname && ' ' !in sp.nid && ' ' !in sp.referralToken && ' ' !in sp.mac && ' ' !in address
  }

  lemma OneToken(s: string)
    requires ' ' !in s
    ensures Split(s) == [s]
  {
    var tok, t := SplitNext(s);
  }

  lemma JoinedSpaceless(name: string, value: string)
    requires ' ' !in name && ' ' !in value
    ensures ' ' !in name + value
  {}

  lemma DashedSpaceless(mac: string)
    requires ' ' !in mac
    ensures ' ' !in "01-" + Dashed(mac)
  {
    assert ' ' !in Dashed(mac);
    JoinedSpaceless("01-", Dashed(mac));
  }

  lemma Spaceless(sp: ScriptParams, address: string, i: nat)
    requires NoSpaces(sp, address) && i < 5
    ensures ' ' !in Specials(sp, address)[i].name && ' ' !in Specials(sp, address)[i].value
  {
    hide Dashed;
    DashedSpaceless(sp.mac);
    JoinedSpaceless("nocloud-net;s=", address);
    JoinedSpaceless("nocloud-net;s=" + address, "/");
  }

  lemma Initials(sp: ScriptParams, address: string, i: nat)
    requires i < 5
    ensures var name := Specials(sp, address)[i].name;
      name != "" && name[0] == "xnbBd"[i]
  {}

  lemma SpecialToken(sp: ScriptParams, address: string, i: nat)
    requires NoSpaces(sp, address) && i < 5
    ensures var p := Specials(sp, address)[i]; Tokens(p) == [p.name + p.value]
  {
    hide Specials, NoSpaces, Split;
    var p := Specials(sp, address)[i];
    Spaceless(sp, address, i);
    JoinedSpaceless(p.name, p.value);
    OneToken(p.name + p.value);
  }

  lemma SpecialsApart(sp: ScriptParams, address: string, i: nat, j: nat)
    requires NoSpaces(sp, address) && i < j < 5
    ensures !Has(Tokens(Specials(sp, address)[i]), Specials(sp, address)[j].name)
  {
    hide Specials, NoSpaces, Tokens;
    SpecialToken(sp, address, i);
    Initials(sp, address, i);
    Initials(sp, address, j);
    var p, q := Specials(sp, address)[i], Specials(sp, address)[j];
    assert (p.name + p.value)[0] == p.name[0] != q.name[0];
  }

  /** With values that hold no space the builder adds exactly the parameters
      that have a value and whose name no token of the boot data starts with,
      as one token each and in the order of the source. */
  lemma SpecialsAdded(base: string, sp: ScriptParams, address: string)
    requires NoSpaces(sp, address)
    ensures Split(Chain(base, Specials(sp, address))) == AllDue(Split(base), Specials(sp, address))
    ensures forall p | p in Specials(sp, address) :: Tokens(p) == [p.name + p.value]
  {
    hide Specials, NoSpaces, Tokens, Split, Has, Chain;
    var ps := Specials(sp, address);
    forall p | p in ps ensures Tokens(p) == [p.name + p.value] {
      var i :| 0 <= i < |ps| && ps[i] == p;
      SpecialToken(sp, address, i);
    }
    forall i, j | 0 <= i < j < |ps| ensures !Has(Tokens(ps[i]), ps[j].name) { SpecialsApart(sp, address, i, j); }
    ChainTokens(base, ps);
    AllDueAddedIff(Split(base), ps);
  }

  /** A parameter with its value, when there is one and no token of the boot
      data starts with its name. */
  function Added(ts: seq<string>, name: string, value: string): seq<string> {
    if value == "" || Has(ts, name) then [] else [name + value]
  }

  /** The same, written out. */
  lemma SpecialsInPlainWords(base: string, sp: ScriptParams, address: string)
    requires NoSpaces(sp, address)
    ensures var ts := Split(base);
      Split(Chain(base, Specials(sp, address))) ==
      ts + Added(ts, "xname=", sp.xname) + Added(ts, "nid=", sp.nid)
      + Added(ts, "bss_referral_token=", sp.referralToken)
      + Added(ts, "BOOTIF=", if sp.mac == "" then "" else "01-" + Dashed(sp.mac))
      + Added(ts, "ds=", "nocloud-net;s=" + address + "/")
  {
    hide NoSpaces, Split, Has, Chain, Tokens;
    var ps, ts := Specials(sp, address), Split(base);
    SpecialsAdded(base, sp, address);
    forall i | 0 <= i < 5 ensures ps[i] in ps {}
    AllDueOfFive(ts, ps);
  }

  lemma AllDueOfFive(ts: seq<string>, ps: seq<Param>)
    requires |ps| == 5 && forall p | p in ps :: Tokens(p) == [p.name + p.value]
    ensures AllDue(ts, ps) ==
            ts + Added(ts, ps[0].name, ps[0].value) + Added(ts, ps[1].name, ps[1].value)
            + Added(ts, ps[2].name, ps[2].value) + Added(ts, ps[3].name, ps[3].value)
            + Added(ts, ps[4].name, ps[4].value)
  {
    hide Tokens, Has;
    AllDueNext(ts, ps, 0);
    AllDueNext(ts, ps, 1);
    AllDueNext(ts, ps, 2);
    AllDueNext(ts, ps, 3);
    AllDueNext(ts, ps, 4);
    assert ps[..0] == [] && ps[..5] == ps;
  }

  lemma AllDueNext(ts: seq<string>, ps: seq<Param>, k: nat)
    requires k < |ps| && forall p | p in ps :: Tokens(p) == [p.name + p.value]
    ensures AllDue(ts, ps[..k + 1]) == AllDue(ts, ps[..k]) + Added(ts, ps[k].name, ps[k].value)
  {
    assert ps[..k + 1][..k] == ps[..k] && ps[k] in ps;
  }

  /** The tokens before any parameter is added: those of the boot data, of its
      kernel and of its initrd. */
  lemma BaseTokens(params: string, kernel: string, initrd: string)
    ensures Split(Base(params, kernel, initrd)) ==
            Split(params) + (if kernel == "" then [] else Split(kernel)) + (if initrd == "" then [] else Split(initrd))
  {
    hide Split;
    BaseParts(params, kernel, initrd);
    SplitConcat(params, kernel);
    SplitConcat(if kernel == "" then params else params + " " + kernel, initrd);
  }

  /** A space in a value breaks it: with such an xname the NID is not added,
      although no token of the boot data starts with its name. */
  lemma SpaceCovers()
    ensures var ps := Specials(ScriptParams("x1 nid=", "7", "", ""), "h");
      Due([""], ps[1]) && TokensAfter([""], ps) != AllDue([""], ps)
  {
    var ps := Specials(ScriptParams("x1 nid=", "7", "", ""), "h");
    XnameCovers();
    AllDueAddedIff([""], ps);
    assert Due([""], ps[0]) && Due([""], ps[1]);
  }

  lemma XnameCovers()
    ensures Has(Split("xname=" + "x1 nid="), "nid=")
  {
    hide Split, SplitFrom, FirstSpace;
    SplitToken("xname=x1", "nid=");
    OneToken("nid=");
    assert "xname=" + "x1 nid=" == "xname=x1" + (" " + "nid=");
    assert (["xname=x1"] + ["nid="])[1] == "nid=";
  }
}
