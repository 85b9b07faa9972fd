/** Keys of the key-value store in byte order, and the two kinds of range the
    code asks for.  A key is a byte string: every char is one byte. */
module KeyRanges {

  type Key = string

  predicate Before(a: Key, b: Key) {
    if b == "" then false
    else if a == "" then true
    else a[0] < b[0] || (a[0] == b[0] && Before(a[1..], b[1..]))
  }

  /** The half-open range of keys from lo up to hi. */
  predicate InRange(k: Key, lo: Key, hi: Key) {
    !Before(k, lo) && Before(k, hi)
  }

  predicate Bytes(k: Key) {
    forall c | c in k :: c as int < 256
  }

  // ---------------------------------------------------------- comparing suffixes

  lemma {:induction false} CommonPrefix(p: Key, a: Key, b: Key)
    ensures Before(p + a, p + b) <==> Before(a, b)
  {
    if p == "" {
      assert p + a == a && p + b == b;
    } else {
      assert (p + a)[1..] == p[1..] + a && (p + b)[1..] == p[1..] + b;
      CommonPrefix(p[1..], a, b);
    }
  }

  lemma PrefixStep(p: Key, k: Key)
    requires p != "" && k != "" && p[0] == k[0]
    ensures p <= k <==> p[1..] <= k[1..]
  {}

  /** A key without the prefix is on one side of all keys with it. */
  lemma {:induction false} OutsidePrefix(k: Key, p: Key, a: Key, b: Key)
    requires !(p <= k)
    ensures Before(k, p + a) <==> Before(k, p + b)
  {
    if k != "" && k[0] == p[0] {
      assert (p + a)[1..] == p[1..] + a && (p + b)[1..] == p[1..] + b;
      PrefixStep(p, k);
      OutsidePrefix(k[1..], p[1..], a, b);
    }
  }

  /** Either the key has the prefix, and its rest decides, or it has not, and is
      in no range between two keys with the prefix. */
  lemma RangeUnderPrefix(k: Key, p: Key, a: Key, b: Key)
    ensures InRange(k, p + a, p + b) <==> p <= k && InRange(k[|p|..], a, b)
  {
    if p <= k {
      assert k == p + k[|p|..];
      CommonPrefix(p, k[|p|..], a);
      CommonPrefix(p, k[|p|..], b);
    } else {
      OutsidePrefix(k, p, a, b);
    }
  }

  // -------------------------------------------------------- keyMin .. keyMax scans

  const KEY_MIN := " "
  const KEY_MAX := "~"

  predicate Scanned(prefix: Key, k: Key) {
    prefix <= k && |k| > |prefix| && ' ' <= k[|prefix|] < '~'
  }

  lemma OneCharRange(r: Key, lo: char, hi: char)
    requires lo < hi
    ensures InRange(r, [lo], [hi]) <==> r != "" && lo <= r[0] < hi
  {
    if r != "" {
      assert [lo][1..] == "" && [hi][1..] == "" && !Before(r[1..], "");
    }
  }

  /** The scans for images and for boot parameters find exactly the keys with
      the prefix whose next byte is printable and before '~'. */
  lemma ScanIff(prefix: Key, k: Key)
    ensures InRange(k, prefix + KEY_MIN, prefix + KEY_MAX) <==> Scanned(prefix, k)
  {
    RangeUnderPrefix(k, prefix, KEY_MIN, KEY_MAX);
    if prefix <= k { OneCharRange(k[|prefix|..], ' ', '~'); }
  }

  lemma PrefixesNest(p: Key, q: Key, k: Key)
    requires p <= k && q <= k && |p| <= |q|
    ensures p <= q
  {}

  /** Scans of prefixes of which neither starts the other never share a key. */
  lemma ScansDisjoint(p: Key, q: Key, k: Key)
    requires !(p <= q) && !(q <= p)
    ensures !(InRange(k, p + KEY_MIN, p + KEY_MAX) && InRange(k, q + KEY_MIN, q + KEY_MAX))
  {
    ScanIff(p, k);
    ScanIff(q, k);
    if Scanned(p, k) && Scanned(q, k) {
      if |p| <= |q| { PrefixesNest(p, q, k); } else { PrefixesNest(q, p, k); }
    }
  }

  // ---------------------------------------------------------- search by prefix

  /** fmt's %c of a byte: its one or two byte UTF-8 form. */
  function Utf8(v: int): Key
    requires 0 <= v < 256
  {
    if v < 128 then [v as char] else [(192 + v / 64) as char, (128 + v % 64) as char]
  }

  /** The end of the search range: the last byte plus one, wrapping as a byte. */
  function RangeEnd(prefix: Key): Key
    requires prefix != "" && Bytes(prefix)
  {
    assert prefix[|prefix| - 1] in prefix;
    prefix[..|prefix| - 1] + Utf8((prefix[|prefix| - 1] as int + 1) % 256)
  }

  predicate FindsPrefix(prefix: Key, k: Key)
    requires prefix != "" && Bytes(prefix)
  {
    InRange(k, prefix, RangeEnd(prefix)) <==> prefix <= k
  }

  /** A key on which the search is wrong, when the last byte is not ASCII or is
      its last: one too many, one missed, or the prefix itself. */
  function Witness(prefix: Key): Key
    requires prefix != "" && Bytes(prefix)
  {
    assert prefix[|prefix| - 1] in prefix;
    var stem, c := prefix[..|prefix| - 1], prefix[|prefix| - 1] as int;
    if 127 <= c < 195 then stem + [(c + 1) as char]
    else if c == 195 then prefix + [255 as char]
    else prefix
  }

  lemma SearchSplits(prefix: Key, k: Key)
    requires prefix != "" && Bytes(prefix)
    ensures var stem, last := prefix[..|prefix| - 1], prefix[|prefix| - 1];
            last in prefix &&
            (InRange(k, prefix, RangeEnd(prefix))
             <==> stem <= k && InRange(k[|stem|..], [last], Utf8((last as int + 1) % 256)))
  {
    var stem, last := prefix[..|prefix| - 1], prefix[|prefix| - 1];
    assert last in prefix && stem + [last] == prefix;
    RangeUnderPrefix(k, stem, [last], Utf8((last as int + 1) % 256));
  }

  lemma AsciiSearch(prefix: Key, k: Key)
    requires prefix != "" && Bytes(prefix) && prefix[|prefix| - 1] as int < 127
    ensures FindsPrefix(prefix, k)
  {
    var stem, last := prefix[..|prefix| - 1], prefix[|prefix| - 1];
    SearchSplits(prefix, k);
    if stem <= k { OneCharRange(k[|stem|..], last, (last as int + 1) as char); }
    assert prefix <= k <==> stem <= k && |k| > |stem| && k[|stem|] == last;
  }

  lemma OneByteBefore(c: char, end: Key)
    requires end != ""
    ensures Before([c], end) <==> c < end[0] || (c == end[0] && |end| > 1)
  {}

  /** From 127 on the key after stem + [last] that is wrong: too small an end
      for it, or too large. */
  lemma WrongRest(last: char, rest: Key)
    requires 127 <= last as int < 256
    requires rest == if last as int < 195 then [(last as int + 1) as char]
                     else if last as int == 195 then [last, 255 as char] else [last]
    ensures InRange(rest, [last], Utf8((last as int + 1) % 256)) <==> last as int < 195
  {
    var end := Utf8((last as int + 1) % 256);
    if last as int == 195 {
      assert end[1..] == [132 as char] && rest[1..] == [255 as char];
      OneByteBefore(255 as char, end[1..]);
    } else {
      OneByteBefore(rest[0], end);
      OneByteBefore(rest[0], [last]);
    }
  }

  lemma WrongSearch(prefix: Key)
    requires prefix != "" && Bytes(prefix) && prefix[|prefix| - 1] as int >= 127
    ensures Bytes(Witness(prefix)) && !FindsPrefix(prefix, Witness(prefix))
  {
    var stem, last, w := prefix[..|prefix| - 1], prefix[|prefix| - 1], Witness(prefix);
    SearchSplits(prefix, w);
    assert prefix == stem + [last];
    forall c | c in w ensures c as int < 256 {
      if c !in prefix { assert c in w[|stem|..]; }
    }
    assert w[|stem|..] == if last as int < 195 then [(last as int + 1) as char]
                          else if last as int == 195 then [last, 255 as char] else [last];
    WrongRest(last, w[|stem|..]);
    if last as int < 195 { assert w[|stem|] != prefix[|stem|]; }
  }

  /** The search for a prefix finds exactly the keys that have it if and only if
      the last byte of the prefix is below 127. */
  lemma PrefixSearchIff(prefix: Key)
    requires prefix != "" && Bytes(prefix)
    ensures (forall k | Bytes(k) :: FindsPrefix(prefix, k)) <==> prefix[|prefix| - 1] as int < 127
  {
    if prefix[|prefix| - 1] as int < 127 {
      forall k | Bytes(k) ensures FindsPrefix(prefix, k) { AsciiSearch(prefix, k); }
    } else {
      WrongSearch(prefix);
    }
  }

  /** Every search the code makes ends its prefix with a slash. */
  lemma SlashSearch(path: Key, k: Key)
    requires Bytes(path)
    ensures Bytes(path + "/") && FindsPrefix(path + "/", k)
  {
    AsciiSearch(path + "/", k);
  }
}
