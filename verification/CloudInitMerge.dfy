/** Cloud-init data: the merge of role data with node data, the patch of stored
    data, and lookups by path, all over JSON trees of any depth. */
module CloudInitMerge {

  datatype Json = Null | Atom(text: string) | Arr(items: seq<Json>) | Obj(fields: Fields)

  type Fields = map<string, Json>

  // ------------------------------------------------------------------- lookup

  datatype Lookup = NoKeys | NotFound(keys: seq<string>) | Malformed(at: Json) | Found(value: Json)

  /** Follow a path of keys into nested objects. */
  function MapLookup(m: Fields, keys: seq<string>): Lookup
    decreases |keys|
  {
    if keys == [] then NoKeys
    else if keys[0] !in m then NotFound(keys)
    else if |keys| == 1 then Found(m[keys[0]])
    else if !m[keys[0]].Obj? then Malformed(m[keys[0]])
    else MapLookup(m[keys[0]].fields, keys[1..])
  }

  /** A path of one key finds what is there; a longer one is looked up from
      where its first part leads. */
  lemma {:induction false} LookupSplit(m: Fields, k: string, p: seq<string>, q: seq<string>)
    ensures MapLookup(m, [k]) == if k in m then Found(m[k]) else NotFound([k])
    ensures p != [] && q != [] ==>
              MapLookup(m, p + q) == match MapLookup(m, p)
                                     case Found(Obj(f)) => MapLookup(f, q)
                                     case Found(v) => Malformed(v)
                                     case NotFound(keys) => NotFound(keys + q)
                                     case other => other
    decreases |p|
  {
    if p != [] {
      assert (p + q)[0] == p[0] && (p + q)[1..] == p[1..] + q;
      if p[0] in m && m[p[0]].Obj? { LookupSplit(m[p[0]].fields, k, p[1..], q); }
    }
  }

  // -------------------------------------------------------------------- merge

  /** Merging second into first never meets an object of first with a value of
      second that is no object; the code asserts that type and would panic. */
  predicate Compatible(first: Fields, second: Fields)
    decreases Obj(second)
  {
    forall k | k in first && k in second && first[k].Obj? ::
      second[k].Obj? && Compatible(first[k].fields, second[k].fields)
  }

  /** What each key holds after the merge. */
  function Merge(first: Fields, second: Fields): (m: Fields)
    requires Compatible(first, second)
    ensures m.Keys == first.Keys + second.Keys
    decreases Obj(second)
  {
    map k | k in first.Keys + second.Keys ::
      if k !in second then first[k]
      else if k in first && first[k].Obj? then Obj(Merge(first[k].fields, second[k].fields))
      else second[k]
  }

  /** What a path finds in a merge.  The second tree wins wherever it answers,
      except that two objects are merged; a leaf of the second tree on the way
      stops the path as it does in the second tree; and where the second tree
      does not define the path, it is found exactly when the first tree has it. */
  lemma {:induction false} PathLaw(first: Fields, second: Fields, p: seq<string>)
    requires Compatible(first, second)
    ensures var a, b, m := MapLookup(first, p), MapLookup(second, p), MapLookup(Merge(first, second), p);
      match b
      case Found(Obj(g)) =>
        if a.Found? && a.value.Obj?
        then Compatible(a.value.fields, g) && m == Found(Obj(Merge(a.value.fields, g))) else m == b
      case Found(_) => m == b
      case Malformed(_) => m == b && !a.Found?
      case _ => if a.Found? then m == a else !m.Found?
    decreases |p|
  {
    if p != [] && p[0] in first && p[0] in second && first[p[0]].Obj? {
      PathLaw(first[p[0]].fields, second[p[0]].fields, p[1..]);
    }
  }

  // ------------------------------------------------------------------ algebra

  /** Merging a, b and then c succeeds exactly when b with c, and a with that,
      succeed and b may follow a. */
  lemma {:induction false} MergeOrderIff(a: Fields, b: Fields, c: Fields)
    requires Compatible(a, b)
    ensures Compatible(Merge(a, b), c) <==> Compatible(b, c) && Compatible(a, Merge(b, c))
    decreases Obj(b)
  {
    var ab := Merge(a, b);
    forall k | k in a && k in b && k in c && a[k].Obj? && c[k].Obj?
      ensures Compatible(ab[k].fields, c[k].fields) <==>
              Compatible(b[k].fields, c[k].fields) && Compatible(a[k].fields, Merge(b[k].fields, c[k].fields))
    {
      MergeOrderIff(a[k].fields, b[k].fields, c[k].fields);
    }
    if Compatible(ab, c) {
      assert Compatible(b, c) by {
        forall k | k in b && k in c && b[k].Obj? ensures c[k].Obj? && Compatible(b[k].fields, c[k].fields) {
          assert k in ab && ab[k].Obj?;
        }
      }
      forall k | k in a && k in Merge(b, c) && a[k].Obj?
        ensures Merge(b, c)[k].Obj? && Compatible(a[k].fields, Merge(b, c)[k].fields)
      {
        assert k in ab && ab[k].Obj?;
      }
    }
    if Compatible(b, c) && Compatible(a, Merge(b, c)) {
      var bc := Merge(b, c);
      forall k | k in ab && k in c && ab[k].Obj? ensures c[k].Obj? && Compatible(ab[k].fields, c[k].fields) {
        assert k in bc;
      }
    }
  }

  /** and then both orders give the same tree. */
  lemma {:induction false} MergeAssociative(a: Fields, b: Fields, c: Fields)
    requires Compatible(a, b) && Compatible(Merge(a, b), c)
    ensures Compatible(b, c) && Compatible(a, Merge(b, c))
    ensures Merge(Merge(a, b), c) == Merge(a, Merge(b, c))
    decreases Obj(b)
  {
    MergeOrderIff(a, b, c);
    var ab, bc := Merge(a, b), Merge(b, c);
    forall k | k in ab || k in c ensures Merge(ab, c)[k] == Merge(a, bc)[k] {
      if k in a && k in b && k in c && a[k].Obj? {
        assert ab[k].Obj?;
        MergeAssociative(a[k].fields, b[k].fields, c[k].fields);
      }
    }
  }

  /** The other grouping may succeed alone: b replaces an object by a leaf that
      c turns back into an object. */
  lemma OtherGroupingIsWeaker()
    ensures var a, b, c := map["k" := Obj(map[])], map["k" := Atom("1")], map["k" := Obj(map[])];
            Compatible(b, c) && Compatible(a, Merge(b, c)) && !Compatible(a, b)
  {
    var a: Fields, b: Fields := map["k" := Obj(map[])], map["k" := Atom("1")];
    assert "k" in a && "k" in b && !b["k"].Obj?;
  }

  // ------------------------------------------------------------ JSON Merge Patch

  /** MergePatch of section 2 of RFC 7396. */
  function MergePatch(target: Json, patch: Json): (r: Json)
    ensures patch.Obj? ==> r.Obj?
    decreases patch
  {
    if !patch.Obj? then patch
    else
      var t := if target.Obj? then target.fields else map[];
      var p := patch.fields;
      Obj(map k | k in t.Keys + p.Keys && (k in p ==> p[k] != Null) ::
            if k in p then MergePatch(if k in t then t[k] else Null, p[k]) else t[k])
  }

  /** What a path finds in a patched object.  A null in the patch takes away what
      was there, any other leaf of the patch is found instead, an object of the
      patch is patched into what was there, and everything else stays. */
  lemma {:induction false} PatchPathLaw(t: Fields, patch: Fields, p: seq<string>)
    ensures var a, b := MapLookup(t, p), MapLookup(patch, p);
      var m := MapLookup(MergePatch(Obj(t), Obj(patch)).fields, p);
      match b
      case Found(Null) => !m.Found?
      case Found(Obj(_)) => m == Found(MergePatch(if a.Found? then a.value else Null, b.value))
      case Found(_) => m == b
      case Malformed(v) => if v == Null then !m.Found? else m == b
      case _ => if a.Found? then m == a else !m.Found?
    decreases |p|
  {
    if p != [] && p[0] in patch && patch[p[0]].Obj? {
      PatchPathLaw(if p[0] in t && t[p[0]].Obj? then t[p[0]].fields else map[], patch[p[0]].fields, p[1..]);
    }
  }

  /** No member of the object, at any depth of objects, is null. */
  predicate NullFree(j: Json) {
    j.Obj? ==> forall k | k in j.fields :: j.fields[k] != Null && NullFree(j.fields[k])
  }

  /** A patch of something that is no object returns the patch exactly when it
      is free of nulls. */
  lemma {:induction false} FreshPatchIff(target: Json, p: Json)
    requires target == Obj(map[]) || !target.Obj?
    ensures MergePatch(target, p) == p <==> NullFree(p)
    decreases p
  {
    if p.Obj? {
      var r := MergePatch(target, p);
      forall k | k in p.fields ensures MergePatch(Null, p.fields[k]) == p.fields[k] <==> NullFree(p.fields[k]) {
        FreshPatchIff(Null, p.fields[k]);
      }
      if r == p {
        forall k | k in p.fields ensures p.fields[k] != Null && NullFree(p.fields[k]) {
          assert k in r.fields;
        }
      }
      if NullFree(p) { assert r.fields == p.fields; }
    }
  }

  /** Patching a document with itself. */
  lemma {:induction false} SelfPatchIff(p: Json)
    ensures MergePatch(p, p) == p <==> NullFree(p)
    decreases p
  {
    if p.Obj? {
      var r := MergePatch(p, p);
      forall k | k in p.fields
        ensures MergePatch(p.fields[k], p.fields[k]) == p.fields[k] <==> NullFree(p.fields[k])
      {
        SelfPatchIff(p.fields[k]);
      }
      if r == p {
        forall k | k in p.fields ensures p.fields[k] != Null && NullFree(p.fields[k]) {
          assert k in r.fields;
        }
      }
      if NullFree(p) { assert r.fields == p.fields; }
    }
  }

  /** Patching twice is patching once, nulls or not. */
  lemma {:induction false} PatchIdempotent(t: Json, p: Json)
    ensures MergePatch(MergePatch(t, p), p) == MergePatch(t, p)
    decreases p
  {
    if p.Obj? {
      var r := MergePatch(t, p);
      var tf := if t.Obj? then t.fields else map[];
      forall k | k in p.fields && p.fields[k] != Null
        ensures k in r.fields && MergePatch(r.fields[k], p.fields[k]) == r.fields[k]
      {
        PatchIdempotent(if k in tf then tf[k] else Null, p.fields[k]);
      }
      assert MergePatch(r, p).fields == r.fields;
    }
  }

  /** On compatible trees the merge of role and node data is the merge patch
      exactly when the second has no null. */
  lemma {:induction false} MergeIsPatchIff(a: Fields, b: Fields)
    requires Compatible(a, b)
    ensures MergePatch(Obj(a), Obj(b)) == Obj(Merge(a, b)) <==> NullFree(Obj(b))
    decreases Obj(b)
  {
    var r, m := MergePatch(Obj(a), Obj(b)).fields, Merge(a, b);
    forall k | k in b && b[k] != Null ensures k in r && (r[k] == m[k] <==> NullFree(b[k])) {
      if k in a && a[k].Obj? {
        MergeIsPatchIff(a[k].fields, b[k].fields);
      } else {
        FreshPatchIff(if k in a then a[k] else Null, b[k]);
      }
    }
    if r == m {
      forall k | k in b ensures b[k] != Null && NullFree(b[k]) {
        assert k in m && k in r;
      }
    }
  }

  // ---------------------------------------------------------------- updating

  datatype Patched = Patched(data: Fields, changed: bool)

  /** A patch of empty data is stored as it comes; other data is merge-patched. */
  method UpdateCloudData(existing: Fields, merge: Fields) returns (data: Fields, changed: bool)
    ensures Patched(data, changed) == Update(existing, merge)
  {
    data, changed := existing, false;
    if merge != map[] {
      if existing == map[] {
        data, changed := merge, true;
      } else {
        var patched := MergePatch(Obj(existing), Obj(merge));
        changed := Obj(existing) != patched;
        data := patched.fields;
      }
    }
  }

  /** The specification of UpdateCloudData. */
  function Update(existing: Fields, merge: Fields): (u: Patched)
    ensures u.changed <==> u.data != existing
  {
    if merge == map[] then Patched(existing, false)
    else if existing == map[] then Patched(merge, true)
    else
      var r := MergePatch(Obj(existing), Obj(merge)).fields;
      Patched(r, r != existing)
  }

  lemma EmptyPatch(t: Fields)
    ensures MergePatch(Obj(t), Obj(map[])) == Obj(t)
  {}

  /** The update is the merge patch of RFC 7396 exactly when there was data
      already or the patch has no null. */
  lemma UpdateIsMergePatchIff(existing: Fields, merge: Fields)
    ensures Obj(Update(existing, merge).data) == MergePatch(Obj(existing), Obj(merge))
            <==> existing != map[] || NullFree(Obj(merge))
  {
    if merge == map[] {
      EmptyPatch(existing);
    } else if existing == map[] {
      FreshPatchIff(Obj(existing), Obj(merge));
    }
  }

  /** The same patch a second time reports no change exactly when the first
      left some data, and did not store nulls. */
  lemma SecondUpdateIff(existing: Fields, merge: Fields)
    ensures var first := Update(existing, merge).data;
            !Update(first, merge).changed
            <==> merge == map[] || (first != map[] && (existing != map[] || NullFree(Obj(merge))))
  {
    if merge != map[] {
      if existing == map[] {
        SelfPatchIff(Obj(merge));
      } else {
        PatchIdempotent(Obj(existing), Obj(merge));
      }
    }
  }

  const REMOVE_K: Fields := map["k" := Null]

  /** A patch that removes a key stores a null where there was no data, and the
      same patch again takes it away. */
  lemma NullStored()
    ensures Update(map[], REMOVE_K).data == REMOVE_K && MergePatch(Obj(map[]), Obj(REMOVE_K)) == Obj(map[])
    ensures Update(REMOVE_K, REMOVE_K).changed
  {
    UpdateIsMergePatchIff(map[], REMOVE_K);
    SecondUpdateIff(map[], REMOVE_K);
    assert REMOVE_K["k"] == Null;
    assert MergePatch(Obj(map[]), Obj(REMOVE_K)).fields == map[];
  }

  /** Storing patches and serving merges agree on compatible trees exactly when
      nothing was stored yet or the patch has no null. */
  lemma UpdateAgreesWithMergeIff(existing: Fields, merge: Fields)
    requires Compatible(existing, merge)
    ensures Update(existing, merge).data == Merge(existing, merge) <==> existing == map[] || NullFree(Obj(merge))
  {
    if merge == map[] {
      assert Merge(existing, merge) == existing;
    } else if existing == map[] {
      assert Merge(existing, merge) == merge;
    } else {
      MergeIsPatchIff(existing, merge);
    }
  }

  // -------------------------------------------------------- the whole structure

  /** The phone-home record by its seven fields; all blank when not given. */
  datatype PhoneHome = PhoneHome(dsa: string, rsa: string, ecdsa: string, ed25519: string,
                                 instanceId: string, hostname: string, fqdn: string)

  const NO_PHONE_HOME := PhoneHome("", "", "", "", "", "", "")

  datatype CloudInit = CloudInit(metaData: Fields, userData: Fields, phoneHome: PhoneHome)

  const NO_CLOUD_INIT := CloudInit(map[], map[], NO_PHONE_HOME)

  function Updated(d: CloudInit, p: CloudInit): CloudInit {
    CloudInit(
      Update(d.metaData, p.metaData).data,
      Update(d.userData, p.userData).data,
      if p.phoneHome != NO_PHONE_HOME then p.phoneHome else d.phoneHome)
  }

  /** Patch the three parts; the answer says whether anything changed. */
  method UpdateCloudInit(d: CloudInit, p: CloudInit) returns (r: CloudInit, changed: bool)
    ensures r == Updated(d, p)
    ensures changed <==> r != d
  {
    var metaData, metaChanged := UpdateCloudData(d.metaData, p.metaData);
    var userData, userChanged := UpdateCloudData(d.userData, p.userData);
    changed := userChanged || metaChanged;
    r := CloudInit(metaData, userData, d.phoneHome);
    if p.phoneHome.dsa != "" || p.phoneHome.rsa != "" || p.phoneHome.ecdsa != "" || p.phoneHome.ed25519 != "" ||
       p.phoneHome.instanceId != "" || p.phoneHome.hostname != "" || p.phoneHome.fqdn != "" {
      if p.phoneHome != d.phoneHome {
        r := r.(phoneHome := p.phoneHome);
        changed := true;
      }
    }
  }

  /** Where there was data it is merge-patched, where there was none the patch is
      stored as it comes. */
  predicate FieldsPatched(d: Fields, p: Fields, r: Fields) {
    if d == map[] then r == p else Obj(r) == MergePatch(Obj(d), Obj(p))
  }

  /** Meta-data is patched with meta-data, user data with user data, and the
      phone-home record is replaced as a whole when any field of it is given. */
  predicate CloudInitPatched(d: CloudInit, p: CloudInit, r: CloudInit) {
    && FieldsPatched(d.metaData, p.metaData, r.metaData) && FieldsPatched(d.userData, p.userData, r.userData)
    && var given := p.phoneHome.dsa + p.phoneHome.rsa + p.phoneHome.ecdsa + p.phoneHome.ed25519
                    + p.phoneHome.instanceId + p.phoneHome.hostname + p.phoneHome.fqdn;
       r.phoneHome == if given != "" then p.phoneHome else d.phoneHome
  }

  lemma UpdatedParts(d: CloudInit, p: CloudInit)
    ensures CloudInitPatched(d, p, Updated(d, p))
  {
    EmptyPatch(d.metaData);
    EmptyPatch(d.userData);
  }

  // ------------------------------------------------------------------ metadata

  /** What a node is served: its role's data, overridden by its own, with the
      global data under one key. */
  function Served(role: Fields, node: Fields, global: Fields): Fields
    requires Compatible(role, node)
  {
    Merge(role, node)["Global" := Obj(global)]
  }

  /** A query finds global data only below "Global" and nothing else there;
      elsewhere a leaf of the node's own data wins, and the role's data answers
      exactly the paths the node's own data does not define. */
  lemma ServedPrecedence(role: Fields, node: Fields, global: Fields, p: seq<string>)
    requires Compatible(role, node) && p != []
    ensures p[0] == "Global" ==>
              MapLookup(Served(role, node, global), p)
              == if |p| == 1 then Found(Obj(global)) else MapLookup(global, p[1..])
    ensures p[0] != "Global" && MapLookup(node, p).Found? && !MapLookup(node, p).value.Obj? ==>
              MapLookup(Served(role, node, global), p) == MapLookup(node, p)
    ensures p[0] != "Global" && !MapLookup(node, p).Found? && MapLookup(role, p).Found? ==>
              MapLookup(Served(role, node, global), p) == MapLookup(role, p)
    ensures p[0] != "Global" && MapLookup(Served(role, node, global), p).Found? ==>
              MapLookup(node, p).Found? || MapLookup(role, p).Found?
  {
    PathLaw(role, node, p);
  }
}
