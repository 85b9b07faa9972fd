/** What several parts of the model need. */
module Common {
  datatype Option<T> = None | Some(value: T)

  lemma SameMap<K, V>(v: map<K, V>, w: map<K, V>)
    requires forall k :: k in v <==> k in w
    requires forall k | k in v && k in w :: v[k] == w[k]
    ensures v == w
  {}
}
