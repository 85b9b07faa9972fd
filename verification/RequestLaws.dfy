/** What requests to the Postgres store mean in plain words: which nodes a
    selector names, what becomes of each field, and that the case of the letters
    of a MAC does not matter. */
module RequestLaws {
  import opened AddDelete
  import opened DeleteLaws
  import opened Identities
  import opened Requests
  import opened SetHits
  import opened SetLaws
  import opened StoreLaws
  import opened StoreRuns
  import opened StoreSpec
  import opened TableFacts
  import opened Tables

  // ------------------------------------------------------------------- letters

  const CAPITALS := "ABCDEFGHIJKLMNOPQRSTUVWXYZ"
  const SMALLS := "abcdefghijklmnopqrstuvwxyz"

  /** The same character, or the capital and the small form of one letter. */
  predicate SameLetter(c: char, d: char) {
    c == d || exists k :: 0 <= k < 26 && {c, d} == {CAPITALS[k], SMALLS[k]}
  }

  predicate SameLetters(a: string, b: string) {
    |a| == |b| && forall i | 0 <= i < |a| :: SameLetter(a[i], b[i])
  }

  predicate NoCapital(s: string) { forall k | 0 <= k < 26 :: CAPITALS[k] !in s }

  lemma LetterAt(k: nat)
    requires k < 26
    ensures CAPITALS[k] as int == 65 + k && SMALLS[k] as int == 97 + k
  {}

  lemma LowerCharIs(c: char)
    ensures (exists k :: 0 <= k < 26 && CAPITALS[k] == c && LowerChar(c) == SMALLS[k])
            || ((forall k | 0 <= k < 26 :: CAPITALS[k] != c) && LowerChar(c) == c)
  {
    forall k | 0 <= k < 26 ensures CAPITALS[k] as int == 65 + k && SMALLS[k] as int == 97 + k { LetterAt(k); }
    if 'A' <= c <= 'Z' {
      var k := c as int - 65;
      assert CAPITALS[k] == c && LowerChar(c) == SMALLS[k];
    }
  }

  lemma SameLetterIff(c: char, d: char)
    ensures LowerChar(c) == LowerChar(d) <==> SameLetter(c, d)
  {
    if SameLetter(c, d) { SameLetterLower(c, d); }
    if LowerChar(c) == LowerChar(d) { SameLowerLetter(c, d); }
  }

  lemma SameLetterLower(c: char, d: char)
    requires SameLetter(c, d)
    ensures LowerChar(c) == LowerChar(d)
  {
    if c != d {
      var k :| 0 <= k < 26 && {c, d} == {CAPITALS[k], SMALLS[k]};
      LetterAt(k);
      assert c in {CAPITALS[k], SMALLS[k]} && d in {CAPITALS[k], SMALLS[k]};
    }
  }

  lemma SameLowerLetter(c: char, d: char)
    requires LowerChar(c) == LowerChar(d)
    ensures SameLetter(c, d)
  {
    if 'A' <= c <= 'Z' && c != d { TwoForms(c, d); }
    if 'A' <= d <= 'Z' && c != d { TwoForms(d, c); }
  }

  lemma TwoForms(c: char, d: char)
    requires 'A' <= c <= 'Z' && d == LowerChar(c)
    ensures SameLetter(c, d) && SameLetter(d, c)
  {
    var k := c as int - 65;
    LetterAt(k);
    assert {c, d} == {d, c} == {CAPITALS[k], SMALLS[k]};
  }

  /** Two strings have one lower-case form exactly when they differ in the case
      of letters at most. */
  lemma LowerSameIff(a: string, b: string)
    ensures Lower(a) == Lower(b) <==> SameLetters(a, b)
  {
    forall i | 0 <= i < |a| && i < |b| ensures LowerChar(a[i]) == LowerChar(b[i]) <==> SameLetter(a[i], b[i]) {
      SameLetterIff(a[i], b[i]);
    }
    if Lower(a) == Lower(b) {
      assert |Lower(a)| == |a| && |Lower(b)| == |b|;
      forall i | 0 <= i < |a| ensures SameLetter(a[i], b[i]) { assert Lower(a)[i] == Lower(b)[i]; }
    }
  }

  /** A string is its own lower-case form exactly when it has no capital. */
  lemma IsLowerIff(s: string)
    ensures Lower(s) == s <==> NoCapital(s)
  {
    forall k | 0 <= k < 26 ensures CAPITALS[k] != SMALLS[k] { LetterAt(k); }
    forall i | 0 <= i < |s| ensures Lower(s)[i] == s[i] <==> forall k | 0 <= k < 26 :: CAPITALS[k] != s[i] {
      LowerCharIs(s[i]);
    }
    if !NoCapital(s) {
      var k :| 0 <= k < 26 && CAPITALS[k] in s;
      var i :| 0 <= i < |s| && s[i] == CAPITALS[k];
      assert Lower(s)[i] != s[i];
    }
  }

  /** No run of the four operations stores a MAC with a capital letter. */
  lemma EveryRunStoresSmall(ops: seq<Op>, t: Tables)
    requires Reaches(ops, t)
    ensures forall id | id in t.nodes :: NoCapital(t.nodes[id].mac)
  {
    EveryRunIsWellFormed(ops, t);
    forall id | id in t.nodes ensures NoCapital(t.nodes[id].mac) { IsLowerIff(t.nodes[id].mac); }
  }

  // -------------------------------------------------------- case does not matter

  /** The same selectors, but for the case of letters in MACs. */
  predicate SameButCase(a: Selector, b: Selector) {
    && a.xnames == b.xnames && a.nids == b.nids && |a.macs| == |b.macs|
    && forall i | 0 <= i < |a.macs| :: SameLetters(a.macs[i], b.macs[i])
  }

  lemma SameLettersBack(a: string, b: string)
    requires SameLetters(a, b)
    ensures SameLetters(b, a)
  {
    LowerSameIff(a, b);
    LowerSameIff(b, a);
  }

  lemma SameKnown(t: Tables, a: string, b: string)
    requires SameLetters(a, b)
    ensures KnownMac(t, a) <==> KnownMac(t, b)
  {
    LowerSameIff(a, b);
  }

  lemma {:induction false} SameMissingMacs(t: Tables, a: seq<string>, b: seq<string>)
    requires |a| == |b| && forall i | 0 <= i < |a| :: SameLetters(a[i], b[i])
    ensures |MissingMacs(t, a)| == |MissingMacs(t, b)|
    ensures forall i | 0 <= i < |MissingMacs(t, a)| :: SameLetters(MissingMacs(t, a)[i], MissingMacs(t, b)[i])
  {
    hide KnownMac, SameLetters;
    if a != [] {
      SameMissingMacs(t, a[..|a| - 1], b[..|b| - 1]);
      SameKnown(t, a[|a| - 1], b[|b| - 1]);
    }
  }

  lemma SameMissing(t: Tables, a: Selector, b: Selector)
    requires SameButCase(a, b)
    ensures SameButCase(Missing(t, a), Missing(t, b)) && Missing(t, a).Everything() == Missing(t, b).Everything()
    ensures SameButCase(FirstKind(a), FirstKind(b))
  {
    SameMissingMacs(t, a.macs, b.macs);
  }

  lemma SameNamesMac(a: seq<string>, b: seq<string>, mac: string)
    requires |a| == |b| && forall i | 0 <= i < |a| :: SameLetters(a[i], b[i])
    ensures NamesMac(a, mac) ==> NamesMac(b, mac)
  {
    if NamesMac(a, mac) {
      var m :| m in a && Lower(m) == mac;
      var i :| 0 <= i < |a| && a[i] == m;
      LowerSameIff(a[i], b[i]);
      assert b[i] in b && Lower(b[i]) == mac;
    }
  }

  lemma SameSelects(a: Selector, b: Selector, n: Node)
    requires SameButCase(a, b)
    ensures Selects(a, n) <==> Selects(b, n)
  {
    forall i | 0 <= i < |a.macs| ensures SameLetters(b.macs[i], a.macs[i]) { SameLettersBack(a.macs[i], b.macs[i]); }
    SameNamesMac(a.macs, b.macs, n.mac);
    SameNamesMac(b.macs, a.macs, n.mac);
  }

  lemma SameSelectedIds(t: Tables, a: Selector, b: Selector)
    requires SameButCase(a, b)
    ensures SelectedIds(t, a) == SelectedIds(t, b)
    ensures forall id :: SelectsId(t, a, id) <==> SelectsId(t, b, id)
  {
    forall id | id in t.nodes ensures Selects(a, t.nodes[id]) <==> Selects(b, t.nodes[id]) {
      SameSelects(a, b, t.nodes[id]);
    }
  }

  lemma SameWanted(t: Tables, a: Selector, b: Selector)
    requires SameButCase(a, b)
    ensures Wanted(t, a) == Wanted(t, b)
  {
    hide MissingMacs, MissingXnames, MissingNids;
    SameMissing(t, a, b);
    SameMissing(t, FirstKind(a), FirstKind(b));
    var x, y := Missing(t, FirstKind(a)).macs, Missing(t, FirstKind(b)).macs;
    forall i | 0 <= i < |x| ensures Lower(x[i]) == Lower(y[i]) { LowerSameIff(x[i], y[i]); }
  }

  lemma AddIgnoresCase(t: Tables, a: BootParams, b: BootParams, t': Tables, o: Outcome)
    requires WellFormed(t) && SameButCase(a.sel, b.sel) && a.config == b.config
    ensures AddStep(t, a, t', o) <==> AddStep(t, b, t', o)
  {
    SameWanted(t, a.sel, b.sel);
  }

  lemma DeleteIgnoresCase(t: Tables, a: BootParams, b: BootParams, t': Tables, o: Outcome)
    requires SameButCase(a.sel, b.sel) && a.config == b.config
    ensures DeleteStep(t, a, t', o) <==> DeleteStep(t, b, t', o)
  {
    SameMissing(t, a.sel, b.sel);
    SameSelectedIds(t, FirstKind(a.sel), FirstKind(b.sel));
  }

  lemma SameUpdatesBy(t: Tables, a: Selector, b: Selector, c: Config, plan: map<Id, Id>, t': Tables)
    requires WellFormed(t) && SameButCase(a, b)
    ensures UpdatesBy(t, a, c, plan, t') <==> UpdatesBy(t, b, c, plan, t')
  {
    hide WellFormed, Target, GrownBy, Selects, NewPair;
    SameSelectedIds(t, a, b);
    assert Touched(t, a) == Touched(t, b);
    forall x, y ensures Repointed(t, a, plan, x, y) <==> Repointed(t, b, plan, x, y) {
      assert SelectsId(t, a, x.node) <==> SelectsId(t, b, x.node);
    }
  }

  /** The same answer, with what is missing listed as the request spells it. */
  predicate SameAnswer(o: Outcome, p: Outcome) {
    || o == p
    || (o.Refused? && p.Refused? && o.why.NotExists? && p.why.NotExists?
        && SameButCase(o.why.missing, p.why.missing))
  }

  lemma UpdateIgnoresCase(t: Tables, a: BootParams, b: BootParams, t': Tables, o: Outcome) returns (p: Outcome)
    requires WellFormed(t) && SameButCase(a.sel, b.sel) && a.config == b.config && UpdateStep(t, a, t', o)
    ensures UpdateStep(t, b, t', p) && SameAnswer(o, p)
  {
    p := o;
    SameMissing(t, a.sel, b.sel);
    SameSelectedIds(t, a.sel, b.sel);
    if !Missing(t, a.sel).Everything() {
      p := Refused(NotExists(Missing(t, b.sel)));
    } else if o == Done {
      var plan :| UpdatesBy(t, a.sel, a.config, plan, t');
      SameUpdatesBy(t, a.sel, b.sel, a.config, plan, t');
    }
  }

  lemma SetIgnoresCase(t: Tables, a: BootParams, b: BootParams, t': Tables, o: Outcome)
    requires WellFormed(t) && SameButCase(a.sel, b.sel) && a.config == b.config
    ensures SetStep(t, a, t', o) <==> SetStep(t, b, t', o)
  {
    forall i | 0 <= i < |a.sel.macs| ensures SameLetters(b.sel.macs[i], a.sel.macs[i]) {
      SameLettersBack(a.sel.macs[i], b.sel.macs[i]);
    }
    if SetStep(t, a, t', o) { SetByOther(t, a, b, t', o); }
    if SetStep(t, b, t', o) { SetByOther(t, b, a, t', o); }
  }

  lemma SetByOther(t: Tables, a: BootParams, b: BootParams, t': Tables, o: Outcome)
    requires WellFormed(t) && SameButCase(a.sel, b.sel) && a.config == b.config && SetStep(t, a, t', o)
    ensures SetStep(t, b, t', o)
  {
    if !a.config.Blank() {
      var mid, upd, oa :| SetVia(t, a, mid, upd, oa, t', o);
      SameMissing(t, a.sel, b.sel);
      SameSelectedIds(t, a.sel, b.sel);
      AddIgnoresCase(t, BootParams(Missing(t, a.sel), a.config), BootParams(Missing(t, b.sel), b.config), mid, oa);
      assert Rebuilt(t, b.sel, upd);
      assert SetVia(t, b, mid, upd, oa, t', o);
    }
  }

  // ------------------------------------------------------------ the named nodes

  /** The node is named: by its MAC whatever the case, its xname or its NID. */
  predicate Named(sel: Selector, n: Node) {
    (exists m :: m in sel.macs && SameLetters(m, n.mac)) || n.xname in sel.xnames || n.nid in sel.nids
  }

  lemma NamedIff(t: Tables, sel: Selector, id: Id)
    requires MacsLower(t) && id in t.nodes && !sel.Everything()
    ensures Selects(sel, t.nodes[id]) <==> Named(sel, t.nodes[id])
  {
    var mac := t.nodes[id].mac;
    forall m ensures Lower(m) == mac <==> SameLetters(m, mac) { LowerSameIff(m, mac); }
  }

  /** Every selector names a node. */
  ghost predicate AllNamed(t: Tables, sel: Selector) {
    && (forall m | m in sel.macs :: exists id :: id in t.nodes && SameLetters(m, t.nodes[id].mac))
    && (forall x | x in sel.xnames :: exists id :: id in t.nodes && t.nodes[id].xname == x)
    && (forall k | k in sel.nids :: exists id :: id in t.nodes && t.nodes[id].nid == k)
  }

  lemma KnownIff(t: Tables, mac: string)
    requires MacsLower(t)
    ensures KnownMac(t, mac) <==> exists id :: id in t.nodes && SameLetters(mac, t.nodes[id].mac)
  {
    forall id | id in t.nodes ensures Lower(mac) == t.nodes[id].mac <==> SameLetters(mac, t.nodes[id].mac) {
      LowerSameIff(mac, t.nodes[id].mac);
    }
  }

  lemma AllNamedIff(t: Tables, sel: Selector)
    requires MacsLower(t)
    ensures Missing(t, sel).Everything() <==> AllNamed(t, sel)
  {
    forall m ensures KnownMac(t, m) <==> exists id :: id in t.nodes && SameLetters(m, t.nodes[id].mac) {
      KnownIff(t, m);
    }
  }

  /** What a refused update lists. */
  lemma MissingInPlainWords(t: Tables, sel: Selector)
    requires MacsLower(t)
    ensures forall m :: m in Missing(t, sel).macs <==>
              m in sel.macs && !exists id :: id in t.nodes && SameLetters(m, t.nodes[id].mac)
    ensures forall x :: x in Missing(t, sel).xnames <==>
              x in sel.xnames && !exists id :: id in t.nodes && t.nodes[id].xname == x
    ensures forall k :: k in Missing(t, sel).nids <==>
              k in sel.nids && !exists id :: id in t.nodes && t.nodes[id].nid == k
  {
    forall m ensures KnownMac(t, m) <==> exists id :: id in t.nodes && SameLetters(m, t.nodes[id].mac) {
      KnownIff(t, m);
    }
  }

  predicate Replaced(before: string, patch: string, after: string) {
    (patch != "" ==> after == patch) && (patch == "" ==> after == before)
  }

  predicate InUpdate(sel: Selector, n: Node) { sel.Everything() || Named(sel, n) }

  lemma InUpdateIff(t: Tables, sel: Selector, id: Id)
    requires MacsLower(t) && id in t.nodes
    ensures Selects(sel, t.nodes[id]) <==> InUpdate(sel, t.nodes[id])
  {
    if !sel.Everything() { NamedIff(t, sel, id); }
  }

  /** An update is refused when a selector names no node, when no field is given,
      and when there are no nodes.  Once done, in each named node, or in all nodes
      when there is no selector, the given fields replace the old ones, the others
      stay, and no other node changes. */
  lemma UpdateInPlainWords(t: Tables, bp: BootParams, t': Tables, o: Outcome)
    requires WellFormed(t) && MacsLower(t) && UpdateStep(t, bp, t', o)
    ensures o == if !AllNamed(t, bp.sel) then Refused(NotExists(Missing(t, bp.sel)))
                 else if bp.config == Config("", "", "") then Refused(BlankPatch)
                 else if t.nodes == map[] then Refused(NoNodeIds) else Done
    ensures o != Done ==> t' == t
    ensures o == Done ==> WellFormed(t') && View(t').Keys == View(t).Keys
    ensures o == Done ==> forall n | n in View(t) && n in View(t') && !InUpdate(bp.sel, n) :: View(t')[n] == View(t)[n]
    ensures o == Done ==> forall n | n in View(t) && n in View(t') && InUpdate(bp.sel, n) ::
              && Replaced(View(t)[n].kernel, bp.config.kernel, View(t')[n].kernel)
              && Replaced(View(t)[n].initrd, bp.config.initrd, View(t')[n].initrd)
              && Replaced(View(t)[n].params, bp.config.params, View(t')[n].params)
  {
    hide WellFormed, MacsLower, AllNamed, Named, InUpdate, UpdateStep, Missing, Selects, Updates;
    UpdateAnswers(t, bp, t', o);
    if o == Done {
      UpdateRefinesOverlay(t, bp.sel, bp.config, t');
      forall n | n in View(t) ensures Selects(bp.sel, n) <==> InUpdate(bp.sel, n) { InUpdateIff(t, bp.sel, n.id); }
    }
  }

  lemma UpdateAnswers(t: Tables, bp: BootParams, t': Tables, o: Outcome)
    requires WellFormed(t) && MacsLower(t) && UpdateStep(t, bp, t', o)
    ensures o == if !AllNamed(t, bp.sel) then Refused(NotExists(Missing(t, bp.sel)))
                 else if bp.config == Config("", "", "") then Refused(BlankPatch)
                 else if t.nodes == map[] then Refused(NoNodeIds) else Done
    ensures o != Done ==> t' == t
    ensures o == Done ==> Updates(t, bp.sel, bp.config, t')
  {
    hide WellFormed, MacsLower, AllNamed, Missing, Updates;
    AllNamedIff(t, bp.sel);
    if Missing(t, bp.sel).Everything() { NoneSelectedIff(t, bp.sel); }
  }

  lemma NoneSelectedIff(t: Tables, sel: Selector)
    requires MacsLower(t) && Missing(t, sel).Everything()
    ensures SelectedIds(t, sel) == {} <==> t.nodes == map[]
  {
    if sel.Everything() {
      assert SelectedIds(t, sel) == t.nodes.Keys;
    } else {
      SomeSelected(t, sel);
      var id :| id in SelectedIds(t, sel);
      assert id in t.nodes;
    }
  }

  lemma SomeSelected(t: Tables, sel: Selector)
    requires MacsLower(t) && !sel.Everything() && Missing(t, sel).Everything()
    ensures SelectedIds(t, sel) != {}
  {
    var id: Id;
    if sel.macs != [] {
      assert sel.macs[0] in sel.macs && KnownMac(t, sel.macs[0]);
      id :| id in t.nodes && t.nodes[id].mac == Lower(sel.macs[0]);
    } else if sel.xnames != [] {
      assert sel.xnames[0] in sel.xnames && KnownXname(t, sel.xnames[0]);
      id :| id in t.nodes && t.nodes[id].xname == sel.xnames[0];
    } else {
      assert sel.nids[0] in sel.nids && KnownNid(t, sel.nids[0]);
      id :| id in t.nodes && t.nodes[id].nid == sel.nids[0];
    }
    assert id in SelectedIds(t, sel);
  }

  // -------------------------------------------------------------------- delete

  /** The kind of selector that counts when several are given. */
  predicate NamedFirst(sel: Selector, n: Node) {
    if sel.xnames != [] then n.xname in sel.xnames
    else if sel.macs != [] then exists m :: m in sel.macs && SameLetters(m, n.mac)
    else n.nid in sel.nids
  }

  lemma NamedFirstIff(t: Tables, sel: Selector, id: Id)
    requires MacsLower(t) && id in t.nodes && !sel.Everything()
    ensures Selects(FirstKind(sel), t.nodes[id]) <==> NamedFirst(sel, t.nodes[id])
  {
    NamedIff(t, FirstKind(sel), id);
  }

  /** A delete with selectors takes the nodes of the given hosts, or else of the
      given MACs, or else of the given NIDs, and leaves the others as they are. */
  lemma DeleteInPlainWords(t: Tables, bp: BootParams, t': Tables, o: Outcome)
    requires WellFormed(t) && MacsLower(t) && !bp.sel.Everything() && DeleteStep(t, bp, t', o)
    ensures o == Done <==> exists n :: n in View(t) && NamedFirst(bp.sel, n)
    ensures o != Done ==> o == Refused(NothingSelected) && t' == t
    ensures WellFormed(t')
    ensures forall n :: n in View(t') <==> n in View(t) && !NamedFirst(bp.sel, n)
    ensures forall n | n in View(t') && n in View(t) :: View(t')[n] == View(t)[n]
  {
    var sel := FirstKind(bp.sel);
    DeleteRefinesRestriction(t, sel);
    forall n | n in View(t) ensures n.id in SelectedIds(t, sel) <==> NamedFirst(bp.sel, n) {
      NamedFirstIff(t, bp.sel, n.id);
    }
    if SelectedIds(t, sel) != {} {
      var id :| id in SelectedIds(t, sel);
      assert t.nodes[id] in View(t);
    }
  }

  /** A delete by configuration takes exactly the nodes in which an update with
      the same fields would change nothing. */
  lemma DeleteItemsInPlainWords(t: Tables, bp: BootParams, t': Tables, o: Outcome)
    requires WellFormed(t) && bp.sel.Everything() && !bp.config.Blank() && DeleteStep(t, bp, t', o)
    ensures o == Done && WellFormed(t')
    ensures forall n :: n in View(t') <==> n in View(t) && Overlay(View(t)[n], bp.config) != View(t)[n]
    ensures forall n | n in View(t') && n in View(t) :: View(t')[n] == View(t)[n]
  {
    hide WellFormed, DeletedItems, GroupsWithItems;
    DeleteItemsRefinesRestriction(t, bp.config);
  }

  /** The search for stored contents goes the other way round: it finds those
      in which one of the fields, taken alone, would change nothing. */
  lemma FoundIff(items: Config, c: Config)
    requires !items.Blank()
    ensures MatchesAny(items, c) <==>
            exists one ::
              one in {Config(items.kernel, "", ""), Config("", items.initrd, ""), Config("", "", items.params)}
              && one != Config("", "", "") && Overlay(c, one) == c
  {
    if MatchesAny(items, c) {
      var one := if items.kernel != "" && c.kernel == items.kernel then Config(items.kernel, "", "")
                 else if items.initrd != "" && c.initrd == items.initrd then Config("", items.initrd, "")
                 else Config("", "", items.params);
      assert one != Config("", "", "") && Overlay(c, one) == c;
    }
  }

  /** A delete that names nothing does nothing. */
  lemma BlankDelete(t: Tables, bp: BootParams, t': Tables, o: Outcome)
    requires bp.sel.Everything() && bp.config.kernel == "" && bp.config.initrd == "" && bp.config.params == ""
    requires DeleteStep(t, bp, t', o)
    ensures o == Done && t' == t
  {}

  // ----------------------------------------------------------------------- add

  /** The node carries the identity that it was added for and no other. */
  predicate MadeFor(sel: Selector, n: Node) {
    if sel.xnames != [] then n.xname in sel.xnames && n.mac == "" && n.nid == 0
    else if sel.macs != [] then (exists m :: m in sel.macs && SameLetters(m, n.mac)) && n.xname == "" && n.nid == 0
    else n.nid in sel.nids && n.mac == "" && n.xname == ""
  }

  /** Every given host, or else MAC, or else NID has a node. */
  ghost predicate AllThere(t: Tables, sel: Selector) {
    if sel.xnames != [] then forall x | x in sel.xnames :: exists id :: id in t.nodes && t.nodes[id].xname == x
    else if sel.macs != [] then
      forall m | m in sel.macs :: exists id :: id in t.nodes && SameLetters(m, t.nodes[id].mac)
    else forall k | k in sel.nids :: exists id :: id in t.nodes && t.nodes[id].nid == k
  }

  lemma AllThereIff(t: Tables, sel: Selector)
    requires MacsLower(t)
    ensures Wanted(t, sel) == [] <==> AllThere(t, sel)
  {
    AllNamedIff(t, FirstKind(sel));
  }

  lemma WantedMadeFor(t: Tables, sel: Selector, i: nat, n: Node)
    requires i < |Wanted(t, sel)| && n.(id := BLANK_ID) == Wanted(t, sel)[i]
    ensures MadeFor(sel, n)
  {
    WantedShape(t, sel, i);
    WantedSelected(t, sel, i, n);
    if sel.xnames == [] && sel.macs != [] {
      var m :| m in sel.macs && Lower(m) == n.mac;
      LowerTwice(m);
      LowerSameIff(m, n.mac);
    }
  }

  /** An add is refused as a duplicate exactly when each of the given hosts, or
      else MACs, or else NIDs has a node, and else when no kernel is given.  Once
      done, each of them has one, a new node is made for one that had none, with
      the given configuration, and no old node changes. */
  lemma AddInPlainWords(t: Tables, bp: BootParams, t': Tables, o: Outcome)
    requires WellFormed(t) && MacsLower(t) && AddStep(t, bp, t', o)
    ensures o == if AllThere(t, bp.sel) then Refused(Duplicate)
                 else if bp.config.kernel == "" then Refused(BlankKernel) else Done
    ensures o != Done ==> t' == t
    ensures o == Done ==> WellFormed(t') && AllThere(t', bp.sel)
    ensures o == Done ==> forall n | n in View(t) :: n in View(t') && View(t')[n] == View(t)[n]
    ensures o == Done ==> forall n | n in View(t') && n !in View(t) :: View(t')[n] == bp.config && MadeFor(bp.sel, n)
    ensures o == Done ==> forall n, m | n in View(t') && n !in View(t) && m in View(t) :: Apart(n, m)
  {
    hide WellFormed, MacsLower, Wanted, AllThere, MadeFor, Apart, Adds, AddsTo, AddStep, View, ById, Numbered;
    hide KeyedById;
    AllThereIff(t, bp.sel);
    AddAnswers(t, bp, t', o);
    if o == Done {
      var added, g := WhatAdded(t, bp, t');
      AddRefinesExtension(t, added, bp.config, t');
      AddedAllThere(t, bp.sel, added, t');
      forall n, m | n in added && m in View(t) ensures Apart(n, m) { AddedApart(t, bp.sel, added, n, m); }
      forall n | n in added ensures MadeFor(bp.sel, n) { AddedMadeFor(t, bp.sel, added, n); }
    }
  }

  /** The places of the given hosts, or else MACs, or else NIDs without a node. */
  ghost function Unserved(t: Tables, sel: Selector): set<int> {
    if sel.xnames != [] then
      set i | 0 <= i < |sel.xnames| && !exists id :: id in t.nodes && t.nodes[id].xname == sel.xnames[i]
    else if sel.macs != [] then
      set i | 0 <= i < |sel.macs| && !exists id :: id in t.nodes && SameLetters(sel.macs[i], t.nodes[id].mac)
    else
      set i | 0 <= i < |sel.nids| && !exists id :: id in t.nodes && t.nodes[id].nid == sel.nids[i]
  }

  /** An add makes one node for each of them. */
  lemma AddCounts(t: Tables, bp: BootParams, t': Tables)
    requires WellFormed(t) && MacsLower(t) && AddStep(t, bp, t', Done)
    ensures |t'.nodes| == |t.nodes| + |Unserved(t, bp.sel)|
  {
    hide ById, Wanted, Unserved, WellFormed, AddsTo, AddStep, MacsLower;
    var added, g := WhatAdded(t, bp, t');
    ByIdSize(added);
    assert t'.nodes.Keys == t.nodes.Keys + ById(added).Keys;
    assert forall id | id in ById(added) :: id !in t.nodes;
    WantedSize(t, bp.sel);
  }

  lemma OneMore<T>(a: set<T>, x: T)
    ensures x !in a ==> |a + {x}| == |a| + 1
  {}

  lemma ByIdNext(nodes: seq<Node>)
    requires DistinctIds(nodes) && nodes != []
    ensures var rest, n := nodes[..|nodes| - 1], nodes[|nodes| - 1];
      n.id !in ById(rest) && ById(nodes).Keys == ById(rest).Keys + {n.id}
  {
    var rest, n := nodes[..|nodes| - 1], nodes[|nodes| - 1];
    assert nodes == rest + [n];
    forall id | id in ById(nodes) ensures id in ById(rest).Keys + {n.id} { assert ById(nodes)[id] in nodes; }
  }

  lemma {:induction false} ByIdSize(nodes: seq<Node>)
    requires DistinctIds(nodes)
    ensures |ById(nodes).Keys| == |nodes|
  {
    if nodes != [] {
      var rest, n := nodes[..|nodes| - 1], nodes[|nodes| - 1];
      ByIdSize(rest);
      ByIdNext(nodes);
      OneMore(ById(rest).Keys, n.id);
    }
  }

  lemma WantedSize(t: Tables, sel: Selector)
    requires MacsLower(t)
    ensures |Wanted(t, sel)| == |Unserved(t, sel)|
  {
    hide MissingXnames, MissingMacs, MissingNids, KnownMac, SameLetters, MacsLower, Lower;
    if sel.xnames != [] {
      var known := seq(|sel.xnames|, i requires 0 <= i < |sel.xnames| => KnownXname(t, sel.xnames[i]));
      XnamesMissing(t, sel.xnames, known);
      assert Unserved(t, sel) == Places(known);
    } else if sel.macs != [] {
      var known := seq(|sel.macs|, i requires 0 <= i < |sel.macs| => KnownMac(t, sel.macs[i]));
      MacsMissing(t, sel.macs, known);
      forall i | 0 <= i < |known|
        ensures known[i] <==> exists id :: id in t.nodes && SameLetters(sel.macs[i], t.nodes[id].mac)
      {
        KnownIff(t, sel.macs[i]);
      }
      assert Unserved(t, sel) == Places(known);
    } else {
      var known := seq(|sel.nids|, i requires 0 <= i < |sel.nids| => KnownNid(t, sel.nids[i]));
      NidsMissing(t, sel.nids, known);
      assert Unserved(t, sel) == Places(known);
    }
  }

  /** The places at which nothing is known. */
  function Places(known: seq<bool>): set<int> { set i | 0 <= i < |known| && !known[i] }

  lemma PlacesNext(known: seq<bool>)
    requires known != []
    ensures var rest, k := known[..|known| - 1], |known| - 1;
      |Places(known)| == |Places(rest)| + if known[k] then 0 else 1
  {
    var rest, k := known[..|known| - 1], |known| - 1;
    assert Places(known) == if known[k] then Places(rest) else Places(rest) + {k};
    OneMore(Places(rest), k);
  }

  lemma {:induction false} XnamesMissing(t: Tables, s: seq<string>, known: seq<bool>)
    requires |known| == |s| && forall i | 0 <= i < |s| :: known[i] <==> KnownXname(t, s[i])
    ensures |MissingXnames(t, s)| == |Places(known)|
  {
    hide KnownXname, Places;
    if s == [] {
      NoPlaces();
    } else {
      XnamesMissing(t, s[..|s| - 1], known[..|s| - 1]);
      PlacesNext(known);
    }
  }

  lemma {:induction false} MacsMissing(t: Tables, s: seq<string>, known: seq<bool>)
    requires |known| == |s| && forall i | 0 <= i < |s| :: known[i] <==> KnownMac(t, s[i])
    ensures |MissingMacs(t, s)| == |Places(known)|
  {
    hide KnownMac, Places;
    if s == [] {
      NoPlaces();
    } else {
      MacsMissing(t, s[..|s| - 1], known[..|s| - 1]);
      PlacesNext(known);
    }
  }

  lemma {:induction false} NidsMissing(t: Tables, s: seq<int>, known: seq<bool>)
    requires |known| == |s| && forall i | 0 <= i < |s| :: known[i] <==> KnownNid(t, s[i])
    ensures |MissingNids(t, s)| == |Places(known)|
  {
    hide KnownNid, Places;
    if s == [] {
      NoPlaces();
    } else {
      NidsMissing(t, s[..|s| - 1], known[..|s| - 1]);
      PlacesNext(known);
    }
  }

  lemma NoPlaces()
    ensures Places([]) == {}
  {}

  lemma AddAnswers(t: Tables, bp: BootParams, t': Tables, o: Outcome)
    requires WellFormed(t) && AddStep(t, bp, t', o)
    ensures o == if Wanted(t, bp.sel) == [] then Refused(Duplicate)
                 else if bp.config.kernel == "" then Refused(BlankKernel) else Done
    ensures o != Done ==> t' == t
  {}

  /** A set is refused when no field is given, and else when a selector names no
      node and no kernel is given.  Once done, all nodes are still there, and a
      new one is made for a selector that named none, with what was given. */
  lemma SetInPlainWords(t: Tables, bp: BootParams, t': Tables, o: Outcome)
    requires WellFormed(t) && MacsLower(t) && SetStep(t, bp, t', o)
    ensures o == if bp.config == Config("", "", "") then Refused(BlankPatch)
                 else if !AllNamed(t, bp.sel) && bp.config.kernel == "" then Refused(BlankKernel) else Done
    ensures o != Done ==> t' == t
    ensures o == Done ==> WellFormed(t') && forall n | n in View(t) :: n in View(t')
    ensures o == Done ==> forall n | n in View(t') && n !in View(t) ::
              View(t')[n] == bp.config && !AllNamed(t, bp.sel) && MadeFor(Missing(t, bp.sel), n)
  {
    hide WellFormed, MacsLower, AllNamed, MadeFor, SetStep, Missing, Hit, View;
    AllNamedIff(t, bp.sel);
    var added := SetRefines(t, bp, t', o);
    if o == Done {
      forall n | n in added ensures !AllNamed(t, bp.sel) && MadeFor(Missing(t, bp.sel), n) {
        AddedMadeFor(t, Missing(t, bp.sel), added, n);
      }
    }
  }

  lemma AddedMadeFor(t: Tables, sel: Selector, added: seq<Node>, n: Node)
    requires Numbered(Wanted(t, sel), added) && n in added
    ensures MadeFor(sel, n)
  {
    var i :| 0 <= i < |added| && added[i] == n;
    WantedMadeFor(t, sel, i, n);
  }

  lemma AddedApart(t: Tables, sel: Selector, added: seq<Node>, n: Node, m: Node)
    requires WellFormed(t) && Numbered(Wanted(t, sel), added) && n in added && m in View(t)
    ensures Apart(n, m)
  {
    var i :| 0 <= i < |added| && added[i] == n;
    WantedShape(t, sel, i);
  }

  lemma AddedAllThere(t: Tables, sel: Selector, added: seq<Node>, t': Tables)
    requires MacsLower(t) && Numbered(Wanted(t, sel), added) && DistinctIds(added)
    requires t'.nodes == t.nodes + ById(added) && forall n | n in added :: n.id !in t.nodes
    ensures AllThere(t', sel)
  {
    hide WellFormed, Numbered, AllThere;
    AddKeepsMacsLower(t, sel, added, t');
    var m := Missing(t, FirstKind(sel));
    forall i | 0 <= i < |added| ensures added[i].id in t'.nodes && t'.nodes[added[i].id] == added[i] {
      assert added[i] in added;
    }
    if sel.xnames != [] {
      forall x | x in sel.xnames ensures KnownXname(t', x) { XnameThere(t, sel, added, t', x); }
    } else if sel.macs != [] {
      forall x | x in sel.macs ensures KnownMac(t', x) { MacThere(t, sel, added, t', x); }
    } else {
      forall x | x in sel.nids ensures KnownNid(t', x) { NidThere(t, sel, added, t', x); }
    }
    AllThereIff(t', sel);
  }

  lemma XnameThere(t: Tables, sel: Selector, added: seq<Node>, t': Tables, x: string)
    requires sel.xnames != [] && x in sel.xnames && Numbered(Wanted(t, sel), added)
    requires Submap(t.nodes, t'.nodes)
    requires forall i | 0 <= i < |added| :: added[i].id in t'.nodes && t'.nodes[added[i].id] == added[i]
    ensures KnownXname(t', x)
  {
    if KnownXname(t, x) {
      var id :| id in t.nodes && t.nodes[id].xname == x;
      assert t'.nodes[id].xname == x;
    } else {
      var m := MissingXnames(t, sel.xnames);
      var i :| 0 <= i < |m| && m[i] == x;
      assert added[i].(id := BLANK_ID) == Wanted(t, sel)[i];
      assert t'.nodes[added[i].id].xname == x;
    }
  }

  lemma MacThere(t: Tables, sel: Selector, added: seq<Node>, t': Tables, x: string)
    requires sel.xnames == [] && x in sel.macs && Numbered(Wanted(t, sel), added)
    requires Submap(t.nodes, t'.nodes)
    requires forall i | 0 <= i < |added| :: added[i].id in t'.nodes && t'.nodes[added[i].id] == added[i]
    ensures KnownMac(t', x)
  {
    if KnownMac(t, x) {
      var id :| id in t.nodes && t.nodes[id].mac == Lower(x);
      assert t'.nodes[id].mac == Lower(x);
    } else {
      var m := MissingMacs(t, sel.macs);
      var i :| 0 <= i < |m| && m[i] == x;
      assert added[i].(id := BLANK_ID) == Wanted(t, sel)[i];
      assert t'.nodes[added[i].id].mac == Lower(x);
    }
  }

  lemma NidThere(t: Tables, sel: Selector, added: seq<Node>, t': Tables, x: int)
    requires sel.xnames == [] && sel.macs == [] && x in sel.nids && Numbered(Wanted(t, sel), added)
    requires Submap(t.nodes, t'.nodes)
    requires forall i | 0 <= i < |added| :: added[i].id in t'.nodes && t'.nodes[added[i].id] == added[i]
    ensures KnownNid(t', x)
  {
    if KnownNid(t, x) {
      var id :| id in t.nodes && t.nodes[id].nid == x;
      assert t'.nodes[id].nid == x;
    } else {
      var m := MissingNids(t, sel.nids);
      var i :| 0 <= i < |m| && m[i] == x;
      assert added[i].(id := BLANK_ID) == Wanted(t, sel)[i];
      assert t'.nodes[added[i].id].nid == x;
    }
  }
}
