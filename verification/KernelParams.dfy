/** Rewriting the kernel command line: S3 addresses are replaced by signed ones
    with repeated search-and-replace on the whole string, and parameters are
    appended when they are not there yet. */
module KernelParams {
  import opened Common

  // ------------------------------------------------------------------ the pattern

  predicate AnyButNewline(c: char) { c != '\n' }

  /** Length of the key when s starts with a key and an S3 address, else 0.  The
      dot of the pattern is any character but a newline, a space included. */
  function KeyLen(s: string): nat {
    if StartsMetal(s) then 13 else if StartsRoot(s) then 10 else 0
  }

  predicate StartsMetal(s: string) {
    |s| >= 18 && s[..5] == "metal" && AnyButNewline(s[5]) && s[6..13] == "server=" && s[13..18] == "s3://"
  }

  predicate StartsRoot(s: string) {
    |s| >= 15 && s[..10] == "root=live:" && s[10..15] == "s3://"
  }

  lemma NotBoth(s: string)
    ensures !(StartsMetal(s) && StartsRoot(s))
  {
    assert StartsMetal(s) ==> s[0] == s[..5][0] == 'm';
    assert StartsRoot(s) ==> s[0] == s[..10][0] == 'r';
  }

  function FirstSpace(s: string): (n: nat)
    ensures n <= |s| && (n < |s| ==> s[n] == ' ')
    ensures forall i | 0 <= i < n :: s[i] != ' '
  {
    if s == "" || s[0] == ' ' then 0 else 1 + FirstSpace(s[1..])
  }

  /** End of the address that follows the key. */
  function UrlEnd(s: string): (n: nat)
    requires KeyLen(s) > 0
    ensures KeyLen(s) + 5 <= n <= |s| && (n < |s| ==> s[n] == ' ')
    ensures forall i | KeyLen(s) <= i < n :: s[i] != ' '
  {
    var k := KeyLen(s);
    assert s[k..k + 5] == "s3://";
    assert forall i | k <= i < k + 5 :: s[i] == s[k..k + 5][i - k] != ' ';
    k + 5 + FirstSpace(s[k + 5..])
  }

  // ---------------------------------------------------------- search and replace

  /** The groups of a match: the start of the text or a space, key, address. */
  datatype Match = Match(lead: string, key: string, url: string)

  /** All matches from left to right, not overlapping. */
  function FindAll(s: string, atStart: bool): seq<Match>
    decreases |s|
  {
    if s == "" then []
    else if atStart && KeyLen(s) > 0 then
      [Match("", s[..KeyLen(s)], s[KeyLen(s)..UrlEnd(s)])] + FindAll(s[UrlEnd(s)..], false)
    else if s[0] == ' ' && KeyLen(s[1..]) > 0 then
      var t := s[1..];
      [Match(" ", t[..KeyLen(t)], t[KeyLen(t)..UrlEnd(t)])] + FindAll(t[UrlEnd(t)..], false)
    else FindAll(s[1..], false)
  }

  /** strings.Index. */
  function Index(s: string, sub: string): (n: int)
    ensures -1 <= n <= |s|
    ensures n >= 0 ==> n + |sub| <= |s| && s[n..n + |sub|] == sub
  {
    if sub <= s then 0
    else if s == "" then -1
    else
      var n := Index(s[1..], sub);
      if n < 0 then -1
      else
        assert s[1..][n..n + |sub|] == s[n + 1..n + 1 + |sub|];
        n + 1
  }

  /** strings.Replace of the first occurrence. */
  function ReplaceFirst(s: string, old1: string, new1: string): string {
    var n := Index(s, old1);
    if n < 0 then s else s[..n] + new1 + s[n + |old1|..]
  }

  /** The replacements one after the other, stopping at an address that cannot
      be signed. */
  function ReplaceAll(s: string, ms: seq<Match>, sign: string -> Option<string>): string
    decreases |ms|
  {
    if ms == [] || sign(ms[0].url).None? then s
    else
      var m := ms[0];
      ReplaceAll(ReplaceFirst(s, m.lead + m.key + m.url, m.lead + m.key + sign(m.url).value), ms[1..], sign)
  }

  // --------------------------------------------------------- replacing in place

  /** Each match replaced where it is, up to the first that cannot be signed. */
  function InPlace(s: string, atStart: bool, sign: string -> Option<string>): string
    decreases |s|
  {
    if s == "" then ""
    else if atStart && KeyLen(s) > 0 then
      var url := s[KeyLen(s)..UrlEnd(s)];
      if sign(url).None? then s
      else s[..KeyLen(s)] + sign(url).value + InPlace(s[UrlEnd(s)..], false, sign)
    else if s[0] == ' ' && KeyLen(s[1..]) > 0 then
      var t := s[1..];
      var url := t[KeyLen(t)..UrlEnd(t)];
      if sign(url).None? then s
      else " " + t[..KeyLen(t)] + sign(url).value + InPlace(t[UrlEnd(t)..], false, sign)
    else [s[0]] + InPlace(s[1..], false, sign)
  }

  predicate GoodUrl(url: string) { ' ' !in url && !("s3://" <= url) }

  predicate GoodSigner(ms: seq<Match>, sign: string -> Option<string>) {
    forall m | m in ms :: sign(m.url).Some? ==> GoodUrl(sign(m.url).value)
  }

  /** No place before n can still be matched. */
  predicate Settled(s: string, n: nat) {
    n <= |s| && (n > 0 ==> Settled(s, n - 1) && SettledAt(s, n - 1))
  }

  predicate SettledAt(s: string, q: nat)
    requires q < |s|
  {
    s[q] == ' ' ==> KeyLen(s[q + 1..]) == 0
  }

  lemma {:induction false} SettledBefore(s: string, n: nat, q: nat)
    requires Settled(s, n) && q < n
    ensures SettledAt(s, q)
  {
    if q < n - 1 { SettledBefore(s, n - 1, q); }
  }

  lemma {:induction false} AllSettled(s: string, n: nat)
    requires n <= |s| && forall q: nat | q < n :: SettledAt(s, q)
    ensures Settled(s, n)
  {
    if n > 0 { AllSettled(s, n - 1); }
  }

  lemma {:induction false} IndexIs(s: string, sub: string, n: nat)
    requires n <= |s| && sub <= s[n..] && forall q | 0 <= q < n :: !(sub <= s[q..])
    ensures Index(s, sub) == n
  {
    if n > 0 {
      assert !(sub <= s[0..]) && s[0..] == s;
      assert s[1..][n - 1..] == s[n..];
      forall q | 0 <= q < n - 1 ensures !(sub <= s[1..][q..]) { assert s[1..][q..] == s[q + 1..]; }
      IndexIs(s[1..], sub, n - 1);
    }
  }

  lemma PrefixKeyLen(a: string, s: string)
    requires KeyLen(a) > 0 && a <= s
    ensures KeyLen(s) == KeyLen(a)
  {
    assert a == s[..|a|];
    if StartsMetal(a) {
      assert s[..5] == a[..5] && s[6..13] == a[6..13] && s[13..18] == a[13..18];
    } else {
      assert s[..10] == a[..10] && s[10..15] == a[10..15];
      NotBoth(s);
    }
  }

  lemma FoundKey(s: string, q: nat, text: string)
    requires q < |s| && KeyLen(text) > 0 && " " + text <= s[q..]
    ensures s[q] == ' ' && KeyLen(s[q + 1..]) > 0
  {
    assert s[q..] == " " + text + s[q..][1 + |text|..];
    assert s[q] == s[q..][0] && s[q + 1..] == s[q..][1..] == text + s[q..][1 + |text|..];
    PrefixKeyLen(text, s[q + 1..]);
  }

  lemma NotEarlier(s: string, n: nat, text: string, q: nat)
    requires Settled(s, n) && q < n && KeyLen(text) > 0
    ensures !(" " + text <= s[q..])
  {
    SettledBefore(s, n, q);
    if " " + text <= s[q..] { FoundKey(s, q, text); }
  }

  /** Replacing is in place: in a settled string the first occurrence of the
      text of a match is the match. */
  lemma FirstIsHere(done: string, old1: string, rest: string, text: string, new1: string)
    requires Settled(done + old1 + rest, |done|) && KeyLen(text) > 0
    requires (old1 == text && done == "") || old1 == " " + text
    ensures ReplaceFirst(done + old1 + rest, old1, new1) == done + new1 + rest
  {
    var s := done + old1 + rest;
    assert s[|done|..] == old1 + rest;
    forall q | 0 <= q < |done| ensures !(old1 <= s[q..]) { NotEarlier(s, |done|, text, q); }
    IndexIs(s, old1, |done|);
    assert s[..|done|] == done && s[|done| + |old1|..] == rest;
  }

  // ------------------------------------------------- what a replacement settles

  lemma MetalChars(s: string)
    requires StartsMetal(s)
    ensures s[0] == 'm' && s[6] == 's' && "s3://" <= s[13..]
    ensures forall i | 0 <= i < 18 && i != 5 :: s[i] != ' '
  {}

  lemma RootChars(s: string)
    requires StartsRoot(s)
    ensures s[0] == 'r' && "s3://" <= s[10..]
    ensures forall i | 0 <= i < 15 :: s[i] != ' '
  {}

  /** A key has a space at most after "metal", and never before another key. */
  lemma SpaceBeforeKey(a: string, t: string)
    requires t != "" && (t[0] == 'm' || t[0] == 'r') && KeyLen(a + " " + t) > 0
    ensures KeyLen(a) > 0
  {
    var w := a + " " + t;
    assert w[|a|] == ' ' && w[|a| + 1] == t[0] && a == w[..|a|];
    if StartsMetal(w) {
      MetalChars(w);
      assert a[..5] == w[..5] && a[6..13] == w[6..13] && a[13..18] == w[13..18];
    } else {
      RootChars(w);
      assert a[..10] == w[..10] && a[10..15] == w[10..15];
    }
  }

  lemma KeyStart(s: string)
    requires KeyLen(s) > 0
    ensures s[0] == 'm' || s[0] == 'r'
  {}

  lemma S3Chars(w: string)
    requires "s3://" <= w
    ensures w[..5] == "s3://" && forall i | 0 <= i < 5 :: w[i] != ' '
  {}

  /** A good address, with a space or nothing after it, is no S3 address. */
  lemma SignedIsNoS3(signed: string, rest: string)
    requires GoodUrl(signed) && (rest == "" || rest[0] == ' ')
    ensures !("s3://" <= signed + rest)
  {
    var w := signed + rest;
    assert |signed| >= 5 ==> signed[..5] == w[..5];
    assert rest != "" ==> w[|signed|] == ' ';
    if "s3://" <= w { S3Chars(w); }
  }

  lemma SignedKeyIsDone(text: string, signed: string, rest: string)
    requires KeyLen(text) > 0 && GoodUrl(signed) && (rest == "" || rest[0] == ' ')
    ensures KeyLen(text[..KeyLen(text)] + signed + rest) == 0
  {
    var key := text[..KeyLen(text)];
    var w := key + signed + rest;
    SignedIsNoS3(signed, rest);
    assert w[|key|..] == signed + rest && w[0] == text[0];
    if StartsMetal(text) { MetalChars(text); } else { RootChars(text); }
    if StartsMetal(w) { MetalChars(w); }
    if StartsRoot(w) { RootChars(w); }
  }

  lemma InsideKey(text: string, q: nat, tail: string)
    requires KeyLen(text) > 0 && q < KeyLen(text) && text[q] == ' '
    ensures KeyLen(text[q + 1..KeyLen(text)] + tail) == 0
  {
    var w := text[q + 1..KeyLen(text)] + tail;
    if StartsMetal(text) { MetalChars(text); } else { RootChars(text); }
    assert w[0] == text[6];
    if KeyLen(w) > 0 { KeyStart(w); }
  }

  predicate AtBoundary(done: string, lead: string) { (lead == "" && done == "") || lead == " " }

  lemma Assoc(a: string, b: string, c: string)
    ensures a + b + c == a + (b + c)
  {}

  lemma TailOf(a: string, b: string, q: nat)
    requires q < |a|
    ensures (a + b)[q] == a[q] && (a + b)[q + 1..] == a[q + 1..] + b
  {}

  lemma HeadOff(a: string, b: string, q: nat)
    requires |a| <= q < |a + b|
    ensures (a + b)[q] == b[q - |a|] && (a + b)[q + 1..] == b[q + 1 - |a|..]
  {}

  /** After a replacement everything up to its end is settled. */
  lemma ReplacementSettles(done: string, lead: string, text: string, rest: string, signed: string)
    requires Settled(done + lead + text + rest, |done|) && AtBoundary(done, lead)
    requires KeyLen(text) > 0 && GoodUrl(signed) && (rest == "" || rest[0] == ' ')
    ensures var d := done + lead + text[..KeyLen(text)] + signed; Settled(d + rest, |d|)
  {
    var key := text[..KeyLen(text)];
    var here := key + signed + rest;
    var w := done + (lead + here);
    Assoc(done + lead, key, signed);
    Assoc(done + lead, key + signed, rest);
    Assoc(done, lead, here);
    forall q: nat | q < |done + lead + key + signed| ensures SettledAt(w, q) {
      if q < |done| {
        EarlierStaysSettled(done, lead, text, rest, here, q);
      } else {
        HeadOff(done, lead + here, q);
        SettledHere(lead, text, rest, signed, q - |done|);
      }
    }
    AllSettled(w, |done + lead + key + signed|);
  }

  /** The replaced match itself leaves nothing to match. */
  lemma SettledHere(lead: string, text: string, rest: string, signed: string, q: nat)
    requires KeyLen(text) > 0 && GoodUrl(signed) && (rest == "" || rest[0] == ' ') && (lead == "" || lead == " ")
    requires q < |lead| + KeyLen(text) + |signed|
    ensures SettledAt(lead + (text[..KeyLen(text)] + signed + rest), q)
  {
    var key := text[..KeyLen(text)];
    var here := key + signed + rest;
    if q < |lead| {
      assert (lead + here)[q + 1..] == here;
      SignedKeyIsDone(text, signed, rest);
    } else {
      HeadOff(lead, here, q);
      var i := q - |lead|;
      Assoc(key, signed, rest);
      if i < |key| {
        TailOf(key, signed + rest, i);
        if here[i] == ' ' { InsideKey(text, i, signed + rest); }
      } else {
        HeadOff(key, signed + rest, i);
        assert here[i] == signed[i - |key|];
      }
    }
  }

  lemma EarlierStaysSettled(done: string, lead: string, text: string, rest: string, here: string, q: nat)
    requires Settled(done + lead + text + rest, |done|) && AtBoundary(done, lead)
    requires KeyLen(text) > 0 && q < |done| && here != "" && here[0] == text[0]
    ensures SettledAt(done + (lead + here), q)
  {
    var a := done[q + 1..];
    SettledBefore(done + lead + text + rest, |done|, q);
    Assoc(done, lead, text);
    Assoc(done, lead + text, rest);
    TailOf(done, lead + text + rest, q);
    TailOf(done, lead + here, q);
    if done[q] == ' ' && KeyLen(a + (" " + here)) > 0 {
      KeyStart(text);
      Assoc(a, " ", here);
      SpaceBeforeKey(a, here);
      PrefixKeyLen(a, a + (lead + text + rest));
    }
  }

  lemma SkippingSettles(done: string, rest: string)
    requires rest != "" && Settled(done + rest, |done|) && !(rest[0] == ' ' && KeyLen(rest[1..]) > 0)
    ensures done + [rest[0]] + rest[1..] == done + rest && Settled(done + rest, |done| + 1)
  {
    SkipSame(done, rest);
  }

  lemma SkipSame(done: string, rest: string)
    requires rest != ""
    ensures done + [rest[0]] + rest[1..] == done + rest
    ensures (done + rest)[|done|] == rest[0] && (done + rest)[|done| + 1..] == rest[1..]
  {}

  /** One match replaced: the loop goes on behind it. */
  lemma ReplaceHere(done: string, lead: string, key: string, url: string, rest: string, signed: string)
    requires Settled(done + lead + (key + url) + rest, |done|) && AtBoundary(done, lead)
    requires KeyLen(key + url) == |key| > 0 && GoodUrl(signed) && (rest == "" || rest[0] == ' ')
    ensures Settled(done + lead + key + signed + rest, |done + lead + key + signed|)
    ensures ReplaceFirst(done + lead + (key + url) + rest, lead + key + url, lead + key + signed)
            == done + lead + key + signed + rest
  {
    var text, old1, new1 := key + url, lead + key + url, lead + key + signed;
    ReplacementSettles(done, lead, text, rest, signed);
    assert text[..|key|] == key;
    Assoc(lead, key, url);
    Assoc(done, lead, text);
    assert old1 == " " + text || (old1 == text && done == "") by { if lead == "" { assert lead + text == text; } }
    FirstIsHere(done, old1, rest, text, new1);
    Assoc(done, lead + key, signed);
    Assoc(done, lead, key);
  }

  /** The parts of a match at the start of t. */
  lemma MatchParts(t: string)
    requires KeyLen(t) > 0
    ensures var key, url, rest := t[..KeyLen(t)], t[KeyLen(t)..UrlEnd(t)], t[UrlEnd(t)..];
      t == key + url + rest && KeyLen(key + url) == |key| && (rest == "" || rest[0] == ' ')
  {}

  /** What is left of a replacement in place from a match on. */
  function InPlaceHere(lead: string, t: string, sign: string -> Option<string>): string
    requires KeyLen(t) > 0
  {
    var url := t[KeyLen(t)..UrlEnd(t)];
    if sign(url).None? then lead + t else lead + t[..KeyLen(t)] + sign(url).value + InPlace(t[UrlEnd(t)..], false, sign)
  }

  /** The matches when t starts with one. */
  function MatchesHere(lead: string, t: string): seq<Match>
    requires KeyLen(t) > 0
  {
    [Match(lead, t[..KeyLen(t)], t[KeyLen(t)..UrlEnd(t)])] + FindAll(t[UrlEnd(t)..], false)
  }

  lemma UnfoldAtStart(s: string, sign: string -> Option<string>)
    requires KeyLen(s) > 0
    ensures FindAll(s, true) == MatchesHere("", s) && InPlace(s, true, sign) == InPlaceHere("", s, sign)
  {}

  lemma UnfoldAtSpace(s: string, atStart: bool, sign: string -> Option<string>)
    requires s != "" && s[0] == ' ' && KeyLen(s[1..]) > 0 && !(atStart && KeyLen(s) > 0)
    ensures FindAll(s, atStart) == MatchesHere(" ", s[1..])
            && InPlace(s, atStart, sign) == InPlaceHere(" ", s[1..], sign)
    ensures s == " " + s[1..]
  {}

  lemma UnfoldSkip(s: string, atStart: bool, sign: string -> Option<string>)
    requires s != "" && !(s[0] == ' ' && KeyLen(s[1..]) > 0) && !(atStart && KeyLen(s) > 0)
    ensures FindAll(s, atStart) == FindAll(s[1..], false)
    ensures InPlace(s, atStart, sign) == [s[0]] + InPlace(s[1..], false, sign)
  {}

  /** Searching the whole string for the first occurrence of each match, again
      and again, replaces every match where it is. */
  lemma {:induction false} ReplaceIsInPlace(done: string, rest: string, atStart: bool, sign: string -> Option<string>)
    requires Settled(done + rest, |done|) && (atStart ==> done == "") && GoodSigner(FindAll(rest, atStart), sign)
    ensures ReplaceAll(done + rest, FindAll(rest, atStart), sign) == done + InPlace(rest, atStart, sign)
    decreases |rest|, 1
  {
    if rest == "" {
    } else if atStart && KeyLen(rest) > 0 {
      UnfoldAtStart(rest, sign);
      assert done + "" == done;
      ReplaceMatch(done, "", rest, sign);
    } else if rest[0] == ' ' && KeyLen(rest[1..]) > 0 {
      UnfoldAtSpace(rest, atStart, sign);
      Assoc(done, " ", rest[1..]);
      ReplaceMatch(done, " ", rest[1..], sign);
    } else {
      UnfoldSkip(rest, atStart, sign);
      SkippingSettles(done, rest);
      ReplaceIsInPlace(done + [rest[0]], rest[1..], false, sign);
      Assoc(done, [rest[0]], InPlace(rest[1..], false, sign));
    }
  }

  lemma ReplaceMatch(done: string, lead: string, t: string, sign: string -> Option<string>)
    requires KeyLen(t) > 0 && GoodSigner(MatchesHere(lead, t), sign)
    requires Settled(done + lead + t, |done|) && AtBoundary(done, lead)
    ensures ReplaceAll(done + lead + t, MatchesHere(lead, t), sign) == done + InPlaceHere(lead, t, sign)
    decreases |t|, 0
  {
    var ms := MatchesHere(lead, t);
    var key, url, rest := t[..KeyLen(t)], t[KeyLen(t)..UrlEnd(t)], t[UrlEnd(t)..];
    MatchParts(t);
    assert ms[0] == Match(lead, key, url) && ms[1..] == FindAll(rest, false) && ms[0] in ms;
    Assoc(done + lead, key + url, rest);
    if sign(url).Some? {
      var signed := sign(url).value;
      ReplaceHere(done, lead, key, url, rest, signed);
      ReplaceIsInPlace(done + lead + key + signed, rest, false, sign);
      Assoc(done, lead + key + signed, InPlace(rest, false, sign));
      Assoc(done, lead + key, signed);
      Assoc(done, lead, key);
    } else {
      Assoc(done, lead, t);
    }
  }

  /** The search-and-replace loop gives every match its own signed address and
      changes nothing else, as long as signed addresses have no space and are no
      S3 addresses again. */
  lemma ReplacesInPlace(params: string, sign: string -> Option<string>)
    requires GoodSigner(FindAll(params, true), sign)
    ensures ReplaceAll(params, FindAll(params, true), sign) == InPlace(params, true, sign)
  {
    assert "" + params == params && "" + InPlace(params, true, sign) == InPlace(params, true, sign);
    ReplaceIsInPlace("", params, true, sign);
  }

  /** Each replacement searches the command line as rewritten so far.  An
      address that cannot be signed ends the rewriting with what has been done. */
  method SignMatches(params: string, matches: seq<Match>, sign: string -> Option<string>)
    returns (newParams: string, ok: bool)
    ensures newParams == ReplaceAll(params, matches, sign)
    ensures ok <==> forall m | m in matches :: sign(m.url).Some?
  {
    newParams := params;
    for i := 0 to |matches|
      invariant ReplaceAll(params, matches, sign) == ReplaceAll(newParams, matches[i..], sign)
      invariant forall j | 0 <= j < i :: sign(matches[j].url).Some?
    {
      var m := matches[i];
      assert matches[i..][1..] == matches[i + 1..] && m in matches;
      var signed := sign(m.url);
      if signed.None? { return newParams, false; }
      newParams := ReplaceFirst(newParams, m.lead + m.key + m.url, m.lead + m.key + signed.value);
    }
    ok := true;
  }

  /** The matches are found in the original command line. */
  method ReplaceS3Params(params: string, sign: string -> Option<string>) returns (newParams: string, ok: bool)
    ensures newParams == ReplaceAll(params, FindAll(params, true), sign)
    ensures GoodSigner(FindAll(params, true), sign) ==> newParams == InPlace(params, true, sign)
    ensures ok <==> forall m | m in FindAll(params, true) :: sign(m.url).Some?
  {
    var matches := FindAll(params, true);
    if GoodSigner(matches, sign) { ReplacesInPlace(params, sign); }
    newParams, ok := SignMatches(params, matches, sign);
  }

  // --------------------------------------------------------------------- tokens

  /** strings.Split at spaces. */
  function Split(s: string): (ts: seq<string>)
    ensures ts != []
    decreases |s|, 1
  {
    SplitFrom(s, FirstSpace(s))
  }

  function SplitFrom(s: string, n: nat): (ts: seq<string>)
    requires n <= |s|
    ensures ts != []
    decreases |s|, 0
  {
    if n == |s| then [s] else [s[..n]] + Split(s[n + 1..])
  }

  function Join(ts: seq<string>): string
    requires ts != []
  {
    if |ts| == 1 then ts[0] else ts[0] + " " + Join(ts[1..])
  }

  lemma {:induction false} JoinSplit(s: string)
    ensures Join(Split(s)) == s
    decreases |s|
  {
    var tok, t := SplitNext(s);
    if ' ' in s {
      JoinSplit(t);
      assert ([tok] + Split(t))[1..] == Split(t);
      Assoc(tok, " ", t);
    }
  }

  function SignToken(token: string, f: string -> string): string {
    if KeyLen(token) > 0 then token[..KeyLen(token)] + f(token[KeyLen(token)..]) else token
  }

  function SignTokens(ts: seq<string>, f: string -> string): (r: seq<string>)
    ensures |r| == |ts|
  {
    seq(|ts|, i requires 0 <= i < |ts| => SignToken(ts[i], f))
  }

  /** Each token on its own: signed when it is a key with an S3 address. */
  function TokenWise(s: string, f: string -> string): string {
    Join(SignTokens(Split(s), f))
  }

  lemma JoinSigned(a: string, rest: seq<string>, f: string -> string)
    requires rest != []
    ensures Join(SignTokens([a] + rest, f)) == SignToken(a, f) + " " + Join(SignTokens(rest, f))
  {
    assert SignTokens([a] + rest, f)[1..] == SignTokens(rest, f);
  }

  lemma CutAt(s: string, n: nat)
    requires n < |s| && s[n] == ' '
    ensures s == s[..n] + (" " + s[n + 1..])
  {}

  lemma NoSpaceIn(s: string, n: nat)
    requires n <= |s| && forall i | 0 <= i < n :: s[i] != ' '
    ensures ' ' !in s[..n]
  {}

  lemma SplitUnfold(s: string, n: nat)
    requires n == FirstSpace(s)
    ensures n == |s| ==> Split(s) == [s]
    ensures n < |s| ==> Split(s) == [s[..n]] + Split(s[n + 1..])
  {}

  lemma SpaceIff(s: string, n: nat)
    requires n <= |s| && (n < |s| ==> s[n] == ' ') && ' ' !in s[..n]
    ensures ' ' in s <==> n < |s|
  {}

  /** A string is one token, or a token, a space and the rest. */
  lemma SplitNext(s: string) returns (tok: string, t: string)
    ensures ' ' !in tok
    ensures if ' ' in s then s == tok + (" " + t) && Split(s) == [tok] + Split(t) && |t| < |s|
            else s == tok && Split(s) == [s]
  {
    ghost var n := FirstSpace(s);
    NoSpaceIn(s, n);
    SpaceIff(s, n);
    SplitUnfold(s, n);
    if n < |s| {
      CutAt(s, n);
      tok, t := s[..n], s[n + 1..];
    } else {
      tok, t := s, "";
    }
  }

  function Total(f: string -> string): string -> Option<string> { u => Some(f(u)) }

  ghost predicate SignsWell(f: string -> string) {
    forall u | "s3://" <= u :: GoodUrl(f(u))
  }

  /** The two tokens that the pattern takes for one key, because its dot also
      matches the space between them. */
  predicate SplitKey(token: string, next: string) { token == "metal" && "server=s3://" <= next }

  predicate NoSplitKey(ts: seq<string>) {
    forall i | 0 <= i < |ts| - 1 :: !SplitKey(ts[i], ts[i + 1])
  }

  lemma {:induction false} NoSpaceSkips(a: string, rest: string, f: string -> string)
    requires ' ' !in a
    ensures InPlace(a + rest, false, Total(f)) == a + InPlace(rest, false, Total(f))
  {
    if a == "" {
      assert a + rest == rest && a + InPlace(rest, false, Total(f)) == InPlace(rest, false, Total(f));
    } else {
      assert a[0] in a && (a + rest)[1..] == a[1..] + rest;
      NoSpaceSkips(a[1..], rest, f);
      assert a == [a[0]] + a[1..];
      Assoc([a[0]], a[1..], InPlace(rest, false, Total(f)));
    }
  }

  lemma SpaceStartsToken(t: string, f: string -> string)
    ensures InPlace(" " + t, false, Total(f)) == " " + InPlace(t, true, Total(f))
  {}

  lemma UrlEndInToken(s: string, n: nat)
    requires n <= |s| && ' ' !in s[..n] && (n == |s| || s[n] == ' ') && KeyLen(s[..n]) > 0
    ensures KeyLen(s) == KeyLen(s[..n]) && UrlEnd(s) == n
  {
    PrefixKeyLen(s[..n], s);
    forall i | 0 <= i < n ensures s[i] != ' ' { assert s[i] == s[..n][i] && s[i] in s[..n]; }
  }

  lemma SplitKeyStarts(t: string)
    requires "server=s3://" <= t
    ensures StartsMetal("metal" + (" " + t))
  {}

  /** Only a split key starts in a token and ends in the next one. */
  lemma KeyAcross(tok: string, t: string)
    requires ' ' !in tok && KeyLen(tok) == 0
    ensures KeyLen(tok + (" " + t)) > 0 <==> SplitKey(tok, t)
  {
    var s := tok + (" " + t);
    assert s[|tok|] == ' ' && s[..|tok|] == tok && s[|tok| + 1..] == t;
    if SplitKey(tok, t) { SplitKeyStarts(t); }
    if StartsMetal(s) {
      MetalChars(s);
      if |tok| >= 18 { KeyInToken(tok, s); } else { assert t[..12] == s[6..13] + s[13..18]; }
    } else if StartsRoot(s) {
      RootChars(s);
      KeyInToken(tok, s);
    }
  }

  lemma KeyInToken(tok: string, s: string)
    requires |tok| <= |s| && s[..|tok|] == tok
    requires (StartsMetal(s) && |tok| >= 18) || (StartsRoot(s) && |tok| >= 15)
    ensures KeyLen(tok) > 0
  {
    NotBoth(s);
    assert forall i | 0 <= i < |tok| :: tok[i] == s[i];
    if StartsMetal(s) {
      assert tok[..5] == s[..5] && tok[6..13] == s[6..13] && tok[13..18] == s[13..18];
    } else {
      assert tok[..10] == s[..10] && tok[10..15] == s[10..15];
    }
  }

  lemma SignedTokenThenRest(tok: string, t: string, f: string -> string)
    requires ' ' !in tok && KeyLen(tok) > 0
    ensures InPlace(tok + (" " + t), true, Total(f)) == SignToken(tok, f) + (" " + InPlace(t, true, Total(f)))
  {
    var s := tok + (" " + t);
    assert s[..|tok|] == tok && s[|tok|] == ' ' && s[|tok|..] == " " + t;
    UrlEndInToken(s, |tok|);
    var k := KeyLen(tok);
    assert s[..k] == tok[..k] && s[k..|tok|] == tok[k..];
    SpaceStartsToken(t, f);
  }

  lemma PlainTokenThenRest(tok: string, t: string, f: string -> string)
    requires ' ' !in tok && KeyLen(tok) == 0 && !SplitKey(tok, t)
    ensures InPlace(tok + (" " + t), true, Total(f)) == tok + (" " + InPlace(t, true, Total(f)))
  {
    var s := tok + (" " + t);
    KeyAcross(tok, t);
    NoSpaceSkips(tok, " " + t, f);
    SpaceStartsToken(t, f);
    assert InPlace(s, true, Total(f)) == InPlace(s, false, Total(f));
  }

  lemma TokenThenRest(tok: string, t: string, f: string -> string)
    requires ' ' !in tok && !SplitKey(tok, t)
    ensures InPlace(tok + (" " + t), true, Total(f)) == SignToken(tok, f) + (" " + InPlace(t, true, Total(f)))
  {
    if KeyLen(tok) > 0 { SignedTokenThenRest(tok, t, f); } else { PlainTokenThenRest(tok, t, f); }
  }

  lemma LastToken(s: string, f: string -> string)
    requires ' ' !in s
    ensures InPlace(s, true, Total(f)) == SignToken(s, f)
  {
    assert s[..|s|] == s;
    if KeyLen(s) > 0 {
      UrlEndInToken(s, |s|);
    } else {
      NoSpaceSkips(s, "", f);
      assert s + "" == s;
    }
  }

  lemma CutEqual(a: string, b: string, c: string)
    ensures a + b == a + c <==> b == c
  {
    assert (a + b)[|a|..] == b && (a + c)[|a|..] == c;
  }

  lemma SplitKeyParts(t: string)
    requires "server=s3://" <= t
    ensures ("metal" + (" " + t))[..13] == "metal" + (" " + "server=")
  {}

  /** A replacement in place goes on with a space after an address. */
  lemma InPlaceAtSplitKey(t: string, f: string -> string) returns (x: string)
    requires SignsWell(f) && "server=s3://" <= t
    ensures !("s3://" <= x) && InPlace("metal" + (" " + t), true, Total(f)) == "metal" + (" " + ("server=" + x))
  {
    var s := "metal" + (" " + t);
    SplitKeyStarts(t);
    UrlIsS3(s);
    var signed, rest := f(s[13..UrlEnd(s)]), InPlace(s[UrlEnd(s)..], false, Total(f));
    x := signed + rest;
    assert rest == "" || rest[0] == ' ';
    SignedIsNoS3(signed, rest);
    SplitKeyParts(t);
    UnfoldAtStart(s, Total(f));
    assert "" + s[..13] == s[..13];
    Assoc(s[..13], signed, rest);
    Assoc("metal", " " + "server=", x);
    Assoc(" ", "server=", x);
  }

  /** On a split key the two readings differ. */
  lemma SplitKeyDiffers(t: string, f: string -> string)
    requires SignsWell(f) && "server=s3://" <= t
    ensures InPlace("metal" + (" " + t), true, Total(f)) != "metal" + (" " + TokenWise(t, f))
  {
    var x := InPlaceAtSplitKey(t, f);
    var z := UnsignedStart(t, f);
    var y := "s3://" + z;
    CutEqual("server=", x, y);
    CutEqual(" ", "server=" + x, "server=" + y);
    CutEqual("metal", " " + ("server=" + x), " " + ("server=" + y));
  }

  /** A token that starts with "server=" is not signed. */
  lemma UnsignedStart(t: string, f: string -> string) returns (z: string)
    requires "server=s3://" <= t
    ensures TokenWise(t, f) == "server=" + ("s3://" + z)
  {
    var tok, rest := SplitNext(t);
    FirstTokenKeeps(t, tok, rest);
    z := tok[12..];
    assert tok == "server=" + ("s3://" + z);
    assert tok[0] == 's';
    if KeyLen(tok) > 0 { KeyStart(tok); }
    if ' ' in t {
      JoinSigned(tok, Split(rest), f);
      var tail := " " + TokenWise(rest, f);
      Assoc(tok, " ", TokenWise(rest, f));
      Assoc("server=", "s3://" + z, tail);
      Assoc("s3://", z, tail);
      z := z + tail;
    }
  }

  lemma FirstTokenKeeps(t: string, tok: string, rest: string)
    requires ' ' !in tok && t == (if ' ' in t then tok + (" " + rest) else tok)
    ensures "server=s3://" <= t <==> "server=s3://" <= tok
  {
    assert |tok| < |t| ==> t[|tok|] == ' ';
    if "server=s3://" <= t {
      assert t[..12] == "server=s3://";
      assert forall i | 0 <= i < 12 :: t[i] == t[..12][i] != ' ';
      assert tok[..12] == t[..12];
    }
  }

  lemma NoSplitKeyNext(tok: string, rest: seq<string>)
    requires rest != []
    ensures NoSplitKey([tok] + rest) <==> !SplitKey(tok, rest[0]) && NoSplitKey(rest)
  {
    var ts := [tok] + rest;
    forall i | 0 <= i < |rest| - 1 ensures SplitKey(rest[i], rest[i + 1]) <==> SplitKey(ts[i + 1], ts[i + 2]) {}
    if NoSplitKey(ts) {
      assert !SplitKey(ts[0], ts[1]);
      forall i | 0 <= i < |rest| - 1 ensures !SplitKey(rest[i], rest[i + 1]) { assert !SplitKey(ts[i + 1], ts[i + 2]); }
    }
    if !SplitKey(tok, rest[0]) && NoSplitKey(rest) {
      forall i | 0 <= i < |ts| - 1 ensures !SplitKey(ts[i], ts[i + 1]) {
        if i > 0 { assert !SplitKey(rest[i - 1], rest[i]); }
      }
    }
  }

  lemma SplitKeyByToken(tok: string, t: string)
    ensures SplitKey(tok, t) <==> SplitKey(tok, Split(t)[0])
  {}

  /** Rewriting the whole string is rewriting token by token exactly when no
      token "metal" is followed by one that starts with "server=s3://". */
  lemma {:induction false} InPlaceIsTokenWiseIff(s: string, f: string -> string)
    requires SignsWell(f)
    ensures InPlace(s, true, Total(f)) == TokenWise(s, f) <==> NoSplitKey(Split(s))
    decreases |s|
  {
    var tok, t := SplitNext(s);
    if ' ' !in s {
      LastToken(s, f);
    } else {
      NoSplitKeyNext(tok, Split(t));
      SplitKeyByToken(tok, t);
      JoinSigned(tok, Split(t), f);
      Assoc(SignToken(tok, f), " ", TokenWise(t, f));
      if SplitKey(tok, t) {
        SplitKeyDiffers(t, f);
      } else {
        TokenThenRest(tok, t, f);
        InPlaceIsTokenWiseIff(t, f);
        CutEqual(SignToken(tok, f), " " + InPlace(t, true, Total(f)), " " + TokenWise(t, f));
        CutEqual(" ", InPlace(t, true, Total(f)), TokenWise(t, f));
      }
    }
  }

  lemma {:induction false} MatchedUrls(s: string, atStart: bool, m: Match)
    requires m in FindAll(s, atStart)
    ensures "s3://" <= m.url
    decreases |s|
  {
    if atStart && KeyLen(s) > 0 {
      UrlIsS3(s);
      if m != FindAll(s, atStart)[0] { MatchedUrls(s[UrlEnd(s)..], false, m); }
    } else if s[0] == ' ' && KeyLen(s[1..]) > 0 {
      UrlIsS3(s[1..]);
      if m != FindAll(s, atStart)[0] { MatchedUrls(s[1..][UrlEnd(s[1..])..], false, m); }
    } else {
      MatchedUrls(s[1..], false, m);
    }
  }

  lemma UrlIsS3(s: string)
    requires KeyLen(s) > 0
    ensures "s3://" <= s[KeyLen(s)..UrlEnd(s)]
  {}

  /** The rewriting of the command line treats it as a list of tokens exactly
      when it has no split key. */
  lemma ReplaceIsTokenWiseIff(params: string, f: string -> string)
    requires SignsWell(f)
    ensures ReplaceAll(params, FindAll(params, true), Total(f)) == TokenWise(params, f) <==> NoSplitKey(Split(params))
  {
    forall m | m in FindAll(params, true) ensures GoodUrl(f(m.url)) { MatchedUrls(params, true, m); }
    ReplacesInPlace(params, Total(f));
    InPlaceIsTokenWiseIff(params, f);
  }

  const PLAIN := "metal.server=s3://a"
  const HERE := " " + PLAIN
  const HERE_MATCH := Match(" ", "metal.server=", "s3://a")

  lemma HereMatches(rest: string)
    requires rest == "" || rest[0] == ' '
    ensures FindAll(HERE + rest, false) == [HERE_MATCH] + FindAll(rest, false)
  {
    PlainMatch(rest);
    Assoc(" ", PLAIN, rest);
    var s := " " + (PLAIN + rest);
    assert s[1..] == PLAIN + rest;
    UnfoldAtSpace(s, false, Total(u => u));
  }

  lemma TwoMatches()
    ensures FindAll("x" + (HERE + HERE), true) == [HERE_MATCH, HERE_MATCH]
  {
    var params := "x" + (HERE + HERE);
    assert params[0] == 'x' && params[1..] == HERE + HERE;
    if KeyLen(params) > 0 { KeyStart(params); }
    assert HERE + "" == HERE;
    HereMatches("");
    HereMatches(HERE);
  }

  /** With a signer that returns S3 addresses, of two equal parameters the first
      is signed twice and the second never. */
  lemma SignedTwice()
    ensures var sign := Total(u => u + "+");
      ReplaceAll("x" + (HERE + HERE), FindAll("x" + (HERE + HERE), true), sign) == "x" + ((HERE + "+") + ("+" + HERE))
  {
    var sign := Total(u => u + "+");
    TwoMatches();
    HereIsMatch();
    FirstAfterX(HERE, HERE, HERE + "+");
    Assoc(HERE, "+", HERE);
    FirstAfterX(HERE, "+" + HERE, HERE + "+");
    TwoReplacements("x" + (HERE + HERE), "x" + ((HERE + "+") + HERE), "x" + ((HERE + "+") + ("+" + HERE)), sign);
  }

  lemma HereIsMatch()
    ensures HERE_MATCH.lead + HERE_MATCH.key + HERE_MATCH.url == HERE
    ensures HERE_MATCH.lead + HERE_MATCH.key + (HERE_MATCH.url + "+") == HERE + "+"
  {}

  lemma TwoReplacements(s: string, once: string, twice: string, sign: string -> Option<string>)
    requires sign(HERE_MATCH.url).Some?
    requires var key := HERE_MATCH.lead + HERE_MATCH.key;
             var o, n := key + HERE_MATCH.url, key + sign(HERE_MATCH.url).value;
      ReplaceFirst(s, o, n) == once && ReplaceFirst(once, o, n) == twice
    ensures ReplaceAll(s, [HERE_MATCH, HERE_MATCH], sign) == twice
  {
    assert [HERE_MATCH, HERE_MATCH][1..] == [HERE_MATCH] && [HERE_MATCH][1..] == [];
    assert ReplaceAll(once, [HERE_MATCH], sign) == ReplaceAll(twice, [], sign);
  }

  lemma PlainMatch(rest: string)
    requires rest == "" || rest[0] == ' '
    ensures var t := PLAIN + rest;
      KeyLen(t) == 13 && UrlEnd(t) == 19 && t[..13] == "metal.server=" && t[13..19] == "s3://a" && t[19..] == rest
  {
    var t := PLAIN + rest;
    assert t[..5] == "metal" && t[6..13] == "server=" && t[13..18] == "s3://" && t[18] == 'a';
    assert rest != "" ==> t[19] == ' ';
  }

  lemma FirstAfterX(old1: string, rest: string, new1: string)
    requires old1 != "" && old1[0] == ' '
    ensures ReplaceFirst("x" + (old1 + rest), old1, new1) == "x" + (new1 + rest)
  {
    var s, y := "x" + (old1 + rest), old1 + rest;
    assert s[0] == 'x' && s[1..] == y && y[|old1|..] == rest;
    assert old1 <= y;
    assert Index(y, old1) == 0;
    assert Index(s, old1) == 1;
    assert s[..1] == "x" && s[1 + |old1|..] == s[1..][|old1|..];
    Assoc("x", new1, rest);
  }

  // ------------------------------------------------------------ adding parameters

  predicate ParamExists(params: string, name: string) {
    exists i :: 0 <= i < |Split(params)| && name <= Split(params)[i]
  }

  method FindParam(params: string, name: string) returns (found: bool)
    ensures found <==> ParamExists(params, name)
  {
    var tokens := Split(params);
    for i := 0 to |tokens|
      invariant forall j | 0 <= j < i :: !(name <= tokens[j])
    {
      if name <= tokens[i] { return true; }
    }
    return false;
  }

  function WithParam(params: string, name: string, value: string): string {
    if value != "" && !ParamExists(params, name) then params + " " + name + value else params
  }

  method CheckParam(params: string, name: string, value: string) returns (r: string)
    ensures r == WithParam(params, name, value)
  {
    r := params;
    if value != "" {
      var found := FindParam(params, name);
      if !found { r := r + " " + name + value; }
    }
  }

  lemma {:induction false} SplitConcat(a: string, b: string)
    ensures Split(a + " " + b) == Split(a) + Split(b)
    decreases |a|
  {
    var tok, t := SplitNext(a);
    if ' ' in a {
      SplitConcat(t, b);
      assert a + " " + b == tok + (" " + (t + " " + b)) by {
        Assoc(tok, " " + t, " " + b);
        Assoc(" " + t, " ", b);
        Assoc(tok + (" " + t), " ", b);
        Assoc(" ", t, " " + b);
        Assoc(t, " ", b);
      }
      SplitToken(tok, t + " " + b);
    } else {
      Assoc(tok, " ", b);
      SplitToken(tok, b);
    }
  }

  lemma {:induction false} SplitToken(tok: string, t: string)
    requires ' ' !in tok
    ensures Split(tok + (" " + t)) == [tok] + Split(t)
  {
    var s := tok + (" " + t);
    assert s[|tok|] == ' ' && s[..|tok|] == tok && s[|tok| + 1..] == t;
    forall i | 0 <= i < |tok| ensures s[i] != ' ' { assert s[i] == tok[i] && tok[i] in tok; }
    SpaceAt(s, |tok|);
    SplitUnfold(s, |tok|);
  }

  lemma SpaceAt(s: string, n: nat)
    requires n < |s| && s[n] == ' ' && forall i | 0 <= i < n :: s[i] != ' '
    ensures FirstSpace(s) == n
  {}

  /** A parameter is added behind all others, and only when it has a value and
      no token starts with its name; what was there stays as it was. */
  lemma ParamTokens(params: string, name: string, value: string)
    ensures Split(WithParam(params, name, value)) ==
            Split(params) + if value != "" && !ParamExists(params, name) then Split(name + value) else []
  {
    if value != "" && !ParamExists(params, name) {
      Assoc(params + " ", name, value);
      SplitConcat(params, name + value);
    }
  }

  /** After that the parameter is there exactly when it was or has a value, so
      adding it again, with any value, changes nothing. */
  lemma ParamAddedOnce(params: string, name: string, value: string, again: string)
    requires ' ' !in name
    ensures ParamExists(WithParam(params, name, value), name) <==> value != "" || ParamExists(params, name)
    ensures value != "" ==> WithParam(WithParam(params, name, value), name, again) == WithParam(params, name, value)
  {
    ParamTokens(params, name, value);
    var ts := Split(WithParam(params, name, value));
    if value != "" && !ParamExists(params, name) {
      var tok, t := SplitNext(name + value);
      NameInFirst(name, value, tok, t);
      assert ts[|Split(params)|] == tok;
      assert ParamExists(WithParam(params, name, value), name);
    }
  }

  lemma NameInFirst(name: string, value: string, tok: string, t: string)
    requires ' ' !in name && ' ' !in tok
    requires name + value == (if ' ' in name + value then tok + (" " + t) else tok)
    ensures name <= tok
  {
    var s := name + value;
    assert |tok| < |s| ==> s[|tok|] == ' ';
    assert forall i | 0 <= i < |name| :: s[i] == name[i] && name[i] in name;
    assert s[..|name|] == name;
    assert |tok| >= |name| ==> tok[..|name|] == s[..|name|];
  }
}
