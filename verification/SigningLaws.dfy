/** What becomes of the two kernel parameters with S3 addresses, wherever they
    stand in the command line, and of everything else. */
module SigningLaws {
  import opened Common
  import opened KernelParams

  /** A parameter with an S3 address that is to be signed. */
  predicate S3Param(key: string, u: string) {
    (key == "root=live:" || key == "metal.server=") && "s3://" <= u && ' ' !in u
  }

  /** The command line with every address signed. */
  function Rewritten(params: string, f: string -> string): string {
    ReplaceAll(params, FindAll(params, true), Total(f))
  }

  lemma RewrittenInPlace(params: string, f: string -> string)
    requires SignsWell(f)
    ensures Rewritten(params, f) == InPlace(params, true, Total(f))
  {
    forall m | m in FindAll(params, true) ensures GoodUrl(f(m.url)) { MatchedUrls(params, true, m); }
    ReplacesInPlace(params, Total(f));
  }

  /** The length of the key, whichever of the two it is. */
  lemma ParamKeyLen(key: string, u: string)
    requires S3Param(key, u)
    ensures KeyLen(key + u) == |key| && (key + u)[..|key|] == key && (key + u)[|key|..] == u
    ensures ' ' !in key + u && !("server=s3://" <= key + u) && key + u != "metal"
  {
    var s := key + u;
    assert u[..5] == "s3://";
    if key == "root=live:" {
      assert s[..10] == key && s[10..15] == u[..5];
      assert s[0] == 'r';
    } else {
      assert s[..13] == key && s[13..18] == u[..5];
      assert s[..5] == key[..5] && s[5] == key[5] && s[6..13] == key[6..13];
    }
  }

  lemma ParamSigned(key: string, u: string, f: string -> string)
    requires S3Param(key, u)
    ensures SignToken(key + u, f) == key + f(u)
  {
    ParamKeyLen(key, u);
  }

  // ------------------------------------------------------- in front and behind

  /** A key at the start ends before the space, unless it is a split key. */
  lemma KeyBeforeSpace(a: string, t: string)
    requires !("server=s3://" <= t)
    ensures KeyLen(a + (" " + t)) == KeyLen(a)
    ensures KeyLen(a) > 0 ==> UrlEnd(a + (" " + t)) == UrlEnd(a)
  {
    var s := a + (" " + t);
    assert s[|a|] == ' ' && s[..|a|] == a && s[|a| + 1..] == t;
    if KeyLen(a) > 0 { PrefixKeyLen(a, s); }
    if StartsMetal(s) {
      MetalChars(s);
      if |a| >= 18 {
        assert a[..5] == s[..5] && a[6..13] == s[6..13] && a[13..18] == s[13..18];
      }
    }
    if StartsRoot(s) {
      RootChars(s);
      if |a| >= 15 { assert a[..10] == s[..10] && a[10..15] == s[10..15]; }
    }
    if KeyLen(a) > 0 { SameUrlEnd(a, t); }
  }

  lemma SameUrlEnd(a: string, t: string)
    requires KeyLen(a) > 0 && KeyLen(a + (" " + t)) == KeyLen(a)
    ensures UrlEnd(a + (" " + t)) == UrlEnd(a)
  {
    var s := a + (" " + t);
    assert s[|a|] == ' ' && forall i | 0 <= i < |a| :: s[i] == a[i];
  }

  /** A match at the start of a, with what follows it. */
  lemma MatchAhead(a: string, t: string, f: string -> string)
    requires !("server=s3://" <= t) && KeyLen(a) > 0
    ensures var s, n := a + (" " + t), UrlEnd(a);
      KeyLen(s) > 0 && UrlEnd(s) == n && s[n..] == a[n..] + (" " + t)
      && s[..KeyLen(s)] + f(s[KeyLen(s)..n]) == a[..KeyLen(a)] + f(a[KeyLen(a)..n])
  {
    KeyBeforeSpace(a, t);
    SameParts(a, " " + t, KeyLen(a), UrlEnd(a));
  }

  lemma SameParts(a: string, b: string, k: nat, n: nat)
    requires k <= n <= |a|
    ensures (a + b)[..k] == a[..k] && (a + b)[k..n] == a[k..n] && (a + b)[n..] == a[n..] + b
  {}

  /** What comes before a space is rewritten on its own. */
  lemma {:induction false} FrontOnItsOwn(a: string, t: string, atStart: bool, f: string -> string)
    requires !("server=s3://" <= t)
    ensures InPlace(a + (" " + t), atStart, Total(f))
            == InPlace(a, atStart, Total(f)) + (" " + InPlace(t, true, Total(f)))
    decreases |a|
  {
    hide InPlace, KeyLen;
    var s, end := a + (" " + t), " " + InPlace(t, true, Total(f));
    if a == "" {
      SpaceFirst(t, atStart, f);
    } else if atStart && KeyLen(a) > 0 {
      MatchAtStart(a, t, f);
      FrontOnItsOwn(a[UrlEnd(a)..], t, false, f);
    } else if a[0] == ' ' && KeyLen(a[1..]) > 0 {
      MatchBehindSpace(a[1..], t, atStart, f);
      FrontOnItsOwn(a[1..][UrlEnd(a[1..])..], t, false, f);
      assert a == " " + a[1..];
    } else {
      KeyBeforeSpace(a, t);
      KeyBeforeSpace(a[1..], t);
      assert s[0] == a[0] && s[1..] == a[1..] + (" " + t);
      UnfoldSkip(a, atStart, Total(f));
      UnfoldSkip(s, atStart, Total(f));
      FrontOnItsOwn(a[1..], t, false, f);
      Assoc([a[0]], InPlace(a[1..], false, Total(f)), end);
    }
  }

  lemma NoKeyAtSpace(s: string)
    requires s != "" && s[0] == ' '
    ensures KeyLen(s) == 0
  {
    if KeyLen(s) > 0 { KeyStart(s); }
  }

  lemma SpaceFirst(t: string, atStart: bool, f: string -> string)
    ensures InPlace("" + (" " + t), atStart, Total(f))
            == InPlace("", atStart, Total(f)) + (" " + InPlace(t, true, Total(f)))
  {
    assert "" + (" " + t) == " " + t;
    NoKeyAtSpace(" " + t);
    SpaceStartsToken(t, f);
  }

  lemma SignedAtStart(b: string, f: string -> string)
    requires KeyLen(b) > 0
    ensures InPlace(b, true, Total(f))
            == b[..KeyLen(b)] + f(b[KeyLen(b)..UrlEnd(b)]) + InPlace(b[UrlEnd(b)..], false, Total(f))
  {}

  /** A match at the start: what follows it is left to be shown. */
  lemma MatchAtStart(b: string, t: string, f: string -> string)
    requires !("server=s3://" <= t) && KeyLen(b) > 0
    ensures var rest, end := b[UrlEnd(b)..], " " + InPlace(t, true, Total(f));
      InPlace(rest + (" " + t), false, Total(f)) == InPlace(rest, false, Total(f)) + end ==>
        InPlace(b + (" " + t), true, Total(f)) == InPlace(b, true, Total(f)) + end
  {
    var here := b[..KeyLen(b)] + f(b[KeyLen(b)..UrlEnd(b)]);
    MatchAhead(b, t, f);
    SignedAtStart(b, f);
    SignedAtStart(b + (" " + t), f);
    Assoc(here, InPlace(b[UrlEnd(b)..], false, Total(f)), " " + InPlace(t, true, Total(f)));
  }

  /** A match behind a space: what follows it is left to be shown. */
  lemma MatchBehindSpace(b: string, t: string, atStart: bool, f: string -> string)
    requires !("server=s3://" <= t) && KeyLen(b) > 0
    ensures var rest, end := b[UrlEnd(b)..], " " + InPlace(t, true, Total(f));
      InPlace(rest + (" " + t), false, Total(f)) == InPlace(rest, false, Total(f)) + end ==>
        InPlace(" " + b + (" " + t), atStart, Total(f)) == InPlace(" " + b, atStart, Total(f)) + end
  {
    var rest, end := b[UrlEnd(b)..], " " + InPlace(t, true, Total(f));
    var here := " " + b[..KeyLen(b)] + f(b[KeyLen(b)..UrlEnd(b)]);
    MatchAhead(b, t, f);
    SignedBehindSpace(b, atStart, f);
    SignedBehindSpace(b + (" " + t), atStart, f);
    Assoc(" ", b, " " + t);
    Assoc(" ", b[..KeyLen(b)], f(b[KeyLen(b)..UrlEnd(b)]));
    var s := b + (" " + t);
    Assoc(" ", s[..KeyLen(s)], f(s[KeyLen(s)..UrlEnd(b)]));
    Assoc(here, InPlace(rest, false, Total(f)), end);
  }

  lemma SignedBehindSpace(b: string, atStart: bool, f: string -> string)
    requires KeyLen(b) > 0
    ensures InPlace(" " + b, atStart, Total(f))
            == " " + b[..KeyLen(b)] + f(b[KeyLen(b)..UrlEnd(b)]) + InPlace(b[UrlEnd(b)..], false, Total(f))
  {
    var s := " " + b;
    assert s[0] == ' ' && s[1..] == b;
    NoKeyAtSpace(s);
  }

  /** Each of the two parameters is signed at the start of the line, at its end
      and anywhere between, whatever the rest of the line is. */
  lemma ParamInLine(a: string, key: string, u: string, b: string, f: string -> string)
    requires SignsWell(f) && S3Param(key, u)
    ensures Rewritten(key + u, f) == key + f(u)
    ensures Rewritten(key + u + (" " + b), f) == key + f(u) + (" " + Rewritten(b, f))
    ensures Rewritten(a + (" " + (key + u)), f) == Rewritten(a, f) + (" " + (key + f(u)))
    ensures Rewritten(a + (" " + (key + u + (" " + b))), f)
            == Rewritten(a, f) + (" " + (key + f(u) + (" " + Rewritten(b, f))))
  {
    var tok := key + u;
    ParamKeyLen(key, u);
    ParamSigned(key, u, f);
    RewrittenInPlace(a, f);
    RewrittenInPlace(b, f);
    RewrittenInPlace(tok, f);
    LastToken(tok, f);
    RewrittenInPlace(tok + (" " + b), f);
    TokenThenRest(tok, b, f);
    RewrittenInPlace(a + (" " + tok), f);
    FrontOnItsOwn(a, tok, true, f);
    RewrittenInPlace(a + (" " + (tok + (" " + b))), f);
    NotServer(tok, b);
    FrontOnItsOwn(a, tok + (" " + b), true, f);
  }

  // ------------------------------------------------- addresses that are refused

  /** What the rewriting leaves when the signer may refuse an address. */
  function Attempted(params: string, sign: string -> Option<string>): string {
    ReplaceAll(params, FindAll(params, true), sign)
  }

  lemma FirstMatch(key: string, u: string, rest: string)
    requires S3Param(key, u)
    ensures FindAll(key + u + (" " + rest), true) == [Match("", key, u)] + FindAll(" " + rest, false)
  {
    var tok, s := key + u, key + u + (" " + rest);
    ParamKeyLen(key, u);
    PrefixKeyLen(tok, s);
    assert s[|tok|] == ' ' && forall i | 0 <= i < |tok| :: s[i] == tok[i] != ' ';
    assert UrlEnd(s) == |tok|;
    assert s[..|key|] == key && s[|key|..|tok|] == u && s[|tok|..] == " " + rest;
  }

  lemma MatchBehind(key: string, u: string, rest: string)
    requires S3Param(key, u)
    ensures FindAll(" " + (key + u + (" " + rest)), false) == [Match(" ", key, u)] + FindAll(" " + rest, false)
  {
    var tok, t := key + u, key + u + (" " + rest);
    ParamKeyLen(key, u);
    PrefixKeyLen(tok, t);
    assert t[|tok|] == ' ' && forall i | 0 <= i < |tok| :: t[i] == tok[i] != ' ';
    assert UrlEnd(t) == |tok|;
    assert t[..|key|] == key && t[|key|..|tok|] == u && t[|tok|..] == " " + rest;
    var s := " " + t;
    assert s[0] == ' ' && s[1..] == t;
  }

  /** An address that cannot be signed ends the rewriting: what comes before it
      is signed, and it and everything behind it stay as they are. */
  lemma RefusedEnds(k1: string, u1: string, k2: string, u2: string, rest: string, sign: string -> Option<string>)
    requires S3Param(k1, u1) && S3Param(k2, u2) && sign(u1).Some? && sign(u2).None?
    ensures var tail := k2 + u2 + (" " + rest);
      Attempted(tail, sign) == tail && Attempted(k1 + u1 + (" " + tail), sign) == k1 + sign(u1).value + (" " + tail)
  {
    hide FindAll, ReplaceFirst, S3Param, KeyLen;
    var tail, v := k2 + u2 + (" " + rest), sign(u1).value;
    var line := k1 + u1 + (" " + tail);
    FirstMatch(k2, u2, rest);
    FirstMatch(k1, u1, tail);
    MatchBehind(k2, u2, rest);
    FirstReplaced(k1 + u1, k1 + v, " " + tail);
    var ms := FindAll(line, true);
    assert ms[0] == Match("", k1, u1) && ms[1..][0] == Match(" ", k2, u2);
    assert "" + k1 + u1 == k1 + u1 && "" + k1 + v == k1 + v;
    assert ReplaceAll(k1 + v + (" " + tail), ms[1..], sign) == k1 + v + (" " + tail);
  }

  lemma FirstReplaced(old1: string, new1: string, rest: string)
    ensures ReplaceFirst(old1 + rest, old1, new1) == new1 + rest
  {
    assert old1 <= old1 + rest;
    assert (old1 + rest)[|old1|..] == rest;
  }

  lemma NotServer(tok: string, b: string)
    requires |tok| >= 12 && !("server=s3://" <= tok)
    ensures !("server=s3://" <= tok + (" " + b))
  {}

  /** It starts with neither of the keys and an S3 address, the dot of the first
      read as any character but a newline. */
  predicate Plain(tok: string) {
    && !("root=live:s3://" <= tok)
    && !("metal" <= tok && |tok| > 5 && tok[5] != '\n' && "server=s3://" <= tok[6..])
  }

  lemma PlainIff(tok: string)
    ensures Plain(tok) <==> KeyLen(tok) == 0
  {
    if "root=live:s3://" <= tok {
      assert tok[..15] == "root=live:s3://";
      assert tok[..10] == "root=live:s3://"[..10] && tok[10..15] == "root=live:s3://"[10..15];
    }
    if StartsRoot(tok) {
      assert tok[..15] == tok[..10] + tok[10..15];
      assert "root=live:" + "s3://" == "root=live:s3://";
    }
    if "metal" <= tok && |tok| > 5 && tok[5] != '\n' && "server=s3://" <= tok[6..] {
      assert tok[6..18] == tok[6..][..12] == "server=s3://";
      assert tok[6..13] == tok[6..18][..7] && tok[13..18] == tok[6..18][7..];
    }
    if StartsMetal(tok) {
      assert tok[6..][..12] == tok[6..13] + tok[13..18];
      assert "server=" + "s3://" == "server=s3://";
    }
  }

  /** Every other token stays as it is, wherever it stands; the two exceptions
      are the halves of a key that is split at its dot. */
  lemma PlainInLine(a: string, tok: string, b: string, f: string -> string)
    requires SignsWell(f) && ' ' !in tok && Plain(tok)
    requires !("server=s3://" <= tok) && !(tok == "metal" && "server=s3://" <= b)
    ensures Rewritten(tok, f) == tok
    ensures Rewritten(tok + (" " + b), f) == tok + (" " + Rewritten(b, f))
    ensures Rewritten(a + (" " + tok), f) == Rewritten(a, f) + (" " + tok)
    ensures Rewritten(a + (" " + (tok + (" " + b))), f) == Rewritten(a, f) + (" " + (tok + (" " + Rewritten(b, f))))
  {
    PlainIff(tok);
    RewrittenInPlace(a, f);
    RewrittenInPlace(b, f);
    RewrittenInPlace(tok, f);
    LastToken(tok, f);
    RewrittenInPlace(tok + (" " + b), f);
    TokenThenRest(tok, b, f);
    RewrittenInPlace(a + (" " + tok), f);
    FrontOnItsOwn(a, tok, true, f);
    RewrittenInPlace(a + (" " + (tok + (" " + b))), f);
    ShortNotServer(tok, b);
    FrontOnItsOwn(a, tok + (" " + b), true, f);
  }

  lemma ShortNotServer(tok: string, b: string)
    requires !("server=s3://" <= tok)
    ensures !("server=s3://" <= tok + (" " + b))
  {
    var s := tok + (" " + b);
    if |tok| >= 12 {
      assert s[..12] == tok[..12];
    } else {
      assert s[|tok|] == ' ' && "server=s3://"[|tok|] != ' ';
    }
  }
}
