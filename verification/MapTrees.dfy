/** Cloud-init data as the program holds it: maps that refer to maps.  The merge
    changes its first map in place and links parts of the second into it. */
module MapTrees {
  import opened CloudInitMerge

  datatype Tree = Leaf(value: Json) | Sub(node: Mapping)

  ghost function ReprOf(v: Tree): set<Mapping>
    reads if v.Sub? then {v.node} else {}
  {
    if v.Sub? then v.node.repr else {}
  }

  ghost function ValueOf(v: Tree): Json
    reads if v.Sub? then {v.node} else {}
  {
    if v.Sub? then Obj(v.node.content) else v.value
  }

  /** The maps that each entry is made of. */
  type Parts = map<string, set<Mapping>>

  predicate PairsApart(parts: Parts) {
    forall k, l | k in parts && l in parts && k != l :: parts[k] !! parts[l]
  }

  predicate PartsWithin(parts: Parts, r: set<Mapping>) {
    forall k | k in parts :: parts[k] <= r
  }

  lemma ReplacePart(parts: Parts, r: set<Mapping>, key: string, p: set<Mapping>)
    requires PairsApart(parts) && PartsWithin(parts, r) && forall k | k in parts && k != key :: parts[k] !! p
    ensures PairsApart(parts[key := p]) && PartsWithin(parts[key := p], r + p)
  {}

  function At(parts: Parts, k: string): set<Mapping> { if k in parts then parts[k] else {} }

  /** Entries still to come are made of what they were; the others may have
      taken over what the other map had under their key. */
  predicate Grown(parts: Parts, before: Parts, other: Parts, rest: set<string>) {
    forall k | k in parts :: if k in rest then parts[k] == At(before, k) else parts[k] <= At(before, k) + At(other, k)
  }

  lemma GrownNext(parts: Parts, parts': Parts, before: Parts, other: Parts, rest: set<string>, key: string)
    requires Grown(parts, before, other, rest) && key in rest && key in other && (key in before ==> key in parts)
    requires key in parts' && parts' == parts[key := parts'[key]] && parts'[key] <= At(parts, key) + other[key]
    ensures Grown(parts', before, other, rest - {key})
  {}

  lemma GrownApart(parts: Parts, before: Parts, other: Parts, rest: set<string>, key: string, r: set<Mapping>,
                   r': set<Mapping>)
    requires Grown(parts, before, other, rest) && key in rest && key in other
    requires PartsWithin(before, r) && PartsWithin(other, r') && r !! r' && PairsApart(other)
    ensures (forall k | k in parts :: parts[k] !! other[key]) && At(parts, key) <= r
  {}

  function MergedValue(m: Fields, key: string, j: Json): Json
    requires key in m && m[key].Obj? ==> j.Obj? && Compatible(m[key].fields, j.fields)
  {
    if key in m && m[key].Obj? then Obj(Merge(m[key].fields, j.fields)) else j
  }

  /** The merge of c and d, but for the keys of d still to come. */
  predicate MergedBut(m: Fields, c: Fields, d: Fields, rest: set<string>)
    requires Compatible(c, d)
  {
    && rest <= d.Keys && m.Keys == c.Keys + (d.Keys - rest)
    && forall k | k in m :: m[k] == if k in rest then c[k] else Merge(c, d)[k]
  }

  lemma MergeStarts(c: Fields, d: Fields, before: Parts, other: Parts)
    requires Compatible(c, d) && before.Keys == c.Keys
    ensures MergedBut(c, c, d, d.Keys) && (other.Keys == d.Keys ==> Grown(before, before, other, d.Keys))
  {}

  lemma MergedNext(m: Fields, c: Fields, d: Fields, rest: set<string>, key: string)
    requires Compatible(c, d) && MergedBut(m, c, d, rest) && key in rest
    ensures c.Keys <= m.Keys
    ensures key in m && m[key].Obj? ==> d[key].Obj? && Compatible(m[key].fields, d[key].fields)
    ensures MergedBut(m[key := MergedValue(m, key, d[key])], c, d, rest - {key})
  {}

  lemma MergedAll(m: Fields, c: Fields, d: Fields)
    requires Compatible(c, d) && MergedBut(m, c, d, {})
    ensures m == Merge(c, d)
  {}

  class Mapping {
    var entries: map<string, Tree>
    /** The maps that this one is made of, itself included. */
    ghost var repr: set<Mapping>
    /** The maps that each entry is made of. */
    ghost var parts: Parts
    /** The JSON object that it stands for. */
    ghost var content: Fields

    /** The value v stands for j and is made of p, apart from this. */
    ghost predicate Holds(v: Tree, j: Json, p: set<Mapping>, r: set<Mapping>)
      requires this in r && p <= r
      reads if v.Sub? then {v.node} + v.node.repr else {}
      decreases r, 0
    {
      && p == ReprOf(v) && j == ValueOf(v)
      && if v.Leaf? then !v.value.Obj? else v.node in p && this !in p && v.node.Valid()
    }

    /** A tree: no map occurs in two places. */
    ghost predicate Valid()
      reads this, repr
      decreases repr, 1
    {
      && this in repr && content.Keys == parts.Keys == entries.Keys
      && PairsApart(parts) && PartsWithin(parts, repr)
      && (forall k | k in entries ::
            (entries[k].Sub? ==> entries[k].node in repr && entries[k].node.repr <= repr)
            && Holds(entries[k], content[k], parts[k], repr))
    }

    /** A value that may be put here. */
    ghost predicate Fits(v: Tree)
      reads if v.Sub? then {v.node} + v.node.repr else {}
    {
      if v.Leaf? then !v.value.Obj? else v.node in v.node.repr && this !in v.node.repr && v.node.Valid()
    }

    /** All values but the one under this key hold, with what they are made of in r. */
    ghost predicate OthersHold(key: string, r: set<Mapping>)
      requires this in r
      reads this, r
    {
      && parts.Keys + {key} == content.Keys + {key} == entries.Keys + {key}
      && forall k | k in parts && k != key ::
           (entries[k].Sub? ==> entries[k].node in r && entries[k].node.repr <= r)
           && parts[k] <= r && Holds(entries[k], content[k], parts[k], r)
    }

    lemma ValidFrom(key: string, r: set<Mapping>)
      requires this in r && r <= repr && content.Keys == parts.Keys == entries.Keys && key in entries
      requires PairsApart(parts) && PartsWithin(parts, repr) && OthersHold(key, r)
      requires Fits(entries[key]) && parts[key] == ReprOf(entries[key]) && content[key] == ValueOf(entries[key])
      ensures Valid()
    {}

    /** Note this under a key; the other values still hold. */
    ghost method Note(key: string, j: Json, p: set<Mapping>)
      requires this in repr && OthersHold(key, repr)
      modifies `content, `parts, `repr
      ensures content == old(content)[key := j] && parts == old(parts)[key := p] && repr == old(repr) + p
      ensures OthersHold(key, old(repr))
    {
      content := content[key := j];
      parts := parts[key := p];
      repr := repr + p;
    }

    /** Write down what is under a key after it, or what it refers to, changed. */
    ghost method Record(key: string)
      requires this in repr && content.Keys == parts.Keys && entries.Keys == content.Keys + {key}
      requires PairsApart(parts) && PartsWithin(parts, repr) && Fits(entries[key]) && OthersHold(key, repr)
      requires forall k | k in parts && k != key :: parts[k] !! ReprOf(entries[key])
      modifies `content, `parts, `repr
      ensures Valid() && content == old(content)[key := ValueOf(entries[key])]
      ensures repr == old(repr) + ReprOf(entries[key]) && parts == old(parts)[key := ReprOf(entries[key])]
    {
      hide PairsApart, PartsWithin, Valid, OthersHold;
      var v, r := entries[key], repr;
      ReplacePart(parts, repr, key, ReprOf(v));
      Note(key, ValueOf(v), ReprOf(v));
      ValidFrom(key, r);
    }

    /** Put a value under a key; a map has to be apart from the maps here. */
    method SetEntry(key: string, v: Tree)
      requires Valid() && Fits(v)
      requires forall k | k in parts && k != key :: parts[k] !! ReprOf(v)
      modifies this
      ensures Valid() && entries == old(entries)[key := v]
      ensures content == old(content)[key := ValueOf(v)] && repr == old(repr) + ReprOf(v)
      ensures parts == old(parts)[key := ReprOf(v)]
    {
      assert OthersHold(key, repr);
      entries := entries[key := v];
      Record(key);
    }

    /** Merge another map into the one under a key, which stays where it is. */
    method MergeUnder(key: string, other: Mapping, ghost c: Fields, ghost d: Fields)
      requires Valid() && other.Valid() && key in entries && entries[key].Sub?
      requires this !in other.repr && forall k | k in parts :: parts[k] !! other.repr
      requires c == entries[key].node.content && d == other.content && Compatible(c, d)
      modifies this, parts[key]
      ensures Valid() && entries == old(entries) && repr <= old(repr) + other.repr
      ensures content == old(content)[key := Obj(Merge(c, d))]
      ensures parts == old(parts)[key := parts[key]] && parts[key] <= old(parts)[key] + other.repr
      decreases other.repr, 1
    {
      hide Merge, Compatible;
      var m := entries[key].node;
      assert Holds(entries[key], content[key], parts[key], repr);
      assert forall k | k in parts && k != key :: Holds(entries[k], content[k], parts[k], repr) && parts[k] !! m.repr;
      m.MergeFrom(other, c, d);
      assert OthersHold(key, repr);
      Record(key);
    }

    /** One round of the merge loop, with a value j of the other map made of p. */
    method MergeKey(key: string, v: Tree, ghost j: Json, ghost p: set<Mapping>)
      requires Valid() && Fits(v) && ReprOf(v) == p && ValueOf(v) == j && this !in p
      requires forall k | k in parts :: parts[k] !! p
      requires key in content && content[key].Obj? ==> j.Obj? && Compatible(content[key].fields, j.fields)
      modifies this, At(parts, key)
      ensures Valid() && repr <= old(repr) + p
      ensures content == old(content)[key := MergedValue(old(content), key, j)]
      ensures key in parts && parts == old(parts)[key := parts[key]] && parts[key] <= At(old(parts), key) + p
      decreases p, 2
    {
      if key in entries { assert Holds(entries[key], content[key], parts[key], repr); }
      if key in entries && entries[key].Sub? {
        MergeUnder(key, v.node, content[key].fields, j.fields);
      } else {
        SetEntry(key, v);
      }
    }

    /** The merge: values of the other map replace those here or are added, and
        maps under the same key are merged in place.  The other map is not
        changed, but parts of it belong to this one afterwards. */
    method MergeFrom(second: Mapping, ghost c: Fields, ghost d: Fields)
      requires Valid() && second.Valid() && repr !! second.repr
      requires c == content && d == second.content && Compatible(c, d)
      modifies repr
      ensures Valid() && content == Merge(c, d)
      ensures repr <= old(repr) + second.repr
      decreases second.repr, 0
    {
      hide Grown, MergedBut, Merge, At, MergedValue;
      ghost var r, before, other, sr := repr, parts, second.parts, second.repr;
      var all := second.entries;
      var rest := all.Keys;
      MergeStarts(c, d, before, other);
      while rest != {}
        invariant rest <= all.Keys && Valid() && repr <= r + sr && this in r
        invariant second.Valid() && second.entries == all && second.parts == other && second.repr == sr
                  && second.content == d
        invariant Grown(parts, before, other, rest)
        invariant MergedBut(content, c, d, rest)
        decreases rest
      {
        var key :| key in rest;
        GrownApart(parts, before, other, rest, key, r, sr);
        assert second.Holds(all[key], d[key], other[key], sr);
        MergedNext(content, c, d, rest, key);
        ghost var previous := parts;
        MergeKey(key, all[key], d[key], other[key]);
        GrownNext(previous, parts, before, other, rest, key);
        rest := rest - {key};
      }
      MergedAll(content, c, d);
    }
  }
}
