/** The text forms of identity.py: `prefix_id_secret` tokens and `scrypt$n$r$p$salt$digest` hashes. */
module Tokens {
  import opened Wrappers
  import opened Base64Url
  import Decimal

  /** The position of the first `c`, or the length. */
  function IndexOf(s: string, c: char): (i: nat)
    ensures i <= |s|
    ensures i < |s| ==> s[i] == c
  {
    if |s| == 0 || s[0] == c then 0 else IndexOf(s[1..], c) + 1
  }

  lemma {:induction false} IndexOfIsFirst(s: string, c: char)
    ensures c !in s[..IndexOf(s, c)]
  {
    if |s| > 0 && s[0] != c {
      IndexOfIsFirst(s[1..], c);
      assert s[..IndexOf(s, c)] == [s[0]] + s[1..][..IndexOf(s[1..], c)];
    }
  }

  /** `text.split(c, splits)`. */
  function Split(s: string, c: char, splits: nat): (parts: seq<string>)
    ensures 1 <= |parts| <= splits + 1
  {
    var i := IndexOf(s, c);
    if splits == 0 || i == |s| then [s] else [s[..i]] + Split(s[i + 1..], c, splits - 1)
  }

  function Join(parts: seq<string>, c: char): string
    requires |parts| > 0
  {
    if |parts| == 1 then parts[0] else parts[0] + [c] + Join(parts[1..], c)
  }

  lemma CutAt(s: string, i: nat)
    requires i < |s|
    ensures s == s[..i] + [s[i]] + s[i + 1..]
  {
  }

  /** Splitting loses nothing: joining the parts gives the text back. */
  lemma {:induction false} JoinSplit(s: string, c: char, splits: nat)
    ensures Join(Split(s, c, splits), c) == s
    decreases splits
  {
    var i := IndexOf(s, c);
    if splits > 0 && i < |s| {
      CutAt(s, i);
      JoinSplit(s[i + 1..], c, splits - 1);
      JoinStep(s[..i], Split(s[i + 1..], c, splits - 1), c);
    }
  }

  /** All parts but the last are free of the separator. */
  lemma {:induction false} SplitClean(s: string, c: char, splits: nat)
    ensures forall k :: 0 <= k < |Split(s, c, splits)| - 1 ==> c !in Split(s, c, splits)[k]
    decreases splits
  {
    var i := IndexOf(s, c);
    if splits > 0 && i < |s| {
      SplitClean(s[i + 1..], c, splits - 1);
      IndexOfIsFirst(s, c);
    }
  }

  lemma {:induction false} IndexOfConcat(a: string, c: char, rest: string)
    requires c !in a
    ensures IndexOf(a + [c] + rest, c) == |a|
  {
    var s := a + [c] + rest;
    if |a| > 0 {
      assert s[1..] == a[1..] + [c] + rest;
      assert s[0] == a[0] && a[0] in a;
      IndexOfConcat(a[1..], c, rest);
    }
  }

  ghost predicate Clean(parts: seq<string>, c: char) {
    forall k :: 0 <= k < |parts| - 1 ==> c !in parts[k]
  }

  lemma CleanTail(parts: seq<string>, c: char)
    requires |parts| > 1 && Clean(parts, c)
    ensures parts == [parts[0]] + parts[1..] && c !in parts[0] && Clean(parts[1..], c)
  {
    assert forall k :: 0 <= k < |parts| - 1 ==> parts[1..][k] == parts[k + 1];
  }

  lemma SplitJoinCons(head: string, tail: seq<string>, c: char)
    requires c !in head && |tail| > 0 && Split(Join(tail, c), c, |tail| - 1) == tail
    ensures Split(Join([head] + tail, c), c, |tail|) == [head] + tail
  {
    JoinStep(head, tail, c);
    SplitStep(head, c, Join(tail, c), |tail| - 1);
  }

  lemma SplitJoinOne(parts: seq<string>, c: char)
    requires |parts| == 1
    ensures Split(Join(parts, c), c, 0) == parts
  {
    assert parts == [parts[0]];
  }

  /** Joining then splitting gives the parts back, whatever the last part contains. */
  lemma {:induction false} SplitJoin(parts: seq<string>, c: char)
    requires |parts| > 0 && Clean(parts, c)
    ensures Split(Join(parts, c), c, |parts| - 1) == parts
    decreases |parts|
  {
    if |parts| > 1 {
      CleanTail(parts, c);
      SplitJoin(parts[1..], c);
      SplitJoinCons(parts[0], parts[1..], c);
    } else {
      SplitJoinOne(parts, c);
    }
  }

  lemma JoinStep(head: string, tail: seq<string>, c: char)
    requires |tail| > 0
    ensures Join([head] + tail, c) == head + [c] + Join(tail, c)
  {
    assert ([head] + tail)[1..] == tail;
  }

  lemma SplitStep(a: string, c: char, rest: string, splits: nat)
    requires c !in a
    ensures Split(a + [c] + rest, c, splits + 1) == [a] + Split(rest, c, splits)
  {
    var s := a + [c] + rest;
    IndexOfConcat(a, c, rest);
    assert s[..|a|] == a && s[|a| + 1..] == rest;
  }

  // ---- Prefixed tokens ----

  predicate IsHex(c: char) {
    '0' <= c <= '9' || 'a' <= c <= 'f'
  }

  /** The texts with `str(uuid.UUID(text)) == text`. */
  predicate IsCanonicalUuid(s: string) {
    && |s| == 36
    && forall i :: 0 <= i < 36 ==> if i in {8, 13, 18, 23} then s[i] == '-' else IsHex(s[i])
  }

  function PrintToken(prefix: string, id: string, secret: string): string {
    prefix + "_" + id + "_" + secret
  }

  /** `_parse_prefixed_secret`; `None` is the controlled error. */
  function ParseToken(prefix: string, token: string): Option<(string, string)> {
    var parts := Split(token, '_', 2);
    if |parts| != 3 || parts[0] != prefix || parts[2] == "" then None
    else if !IsCanonicalUuid(parts[1]) then None
    else Some((parts[1], parts[2]))
  }

  lemma TokenIsJoin(prefix: string, id: string, secret: string)
    ensures PrintToken(prefix, id, secret) == Join([prefix, id, secret], '_')
  {
    assert [prefix, id, secret][1..] == [id, secret] && [id, secret][1..] == [secret];
    assert Join([id, secret], '_') == id + ['_'] + secret;
    assert prefix + "_" + id + "_" + secret == prefix + ['_'] + (id + ['_'] + secret);
  }

  /** A printed token parses back to its id and secret exactly when its prefix has no underscore, its
      id is a canonical UUID and its secret is not empty; the secret may contain underscores. */
  lemma ParsePrint(prefix: string, id: string, secret: string)
    ensures ParseToken(prefix, PrintToken(prefix, id, secret)) == Some((id, secret))
       <==> '_' !in prefix && IsCanonicalUuid(id) && secret != ""
  {
    var token := PrintToken(prefix, id, secret);
    TokenIsJoin(prefix, id, secret);
    if '_' !in prefix && IsCanonicalUuid(id) {
      UuidHasNoUnderscore(id);
      SplitJoin([prefix, id, secret], '_');
    }
    SplitClean(token, '_', 2);
  }

  lemma UuidHasNoUnderscore(id: string)
    requires IsCanonicalUuid(id)
    ensures '_' !in id
  {
  }

  /** Every accepted token prints back to itself. */
  lemma PrintParse(prefix: string, token: string)
    requires ParseToken(prefix, token).Some?
    ensures var (id, secret) := ParseToken(prefix, token).value;
            PrintToken(prefix, id, secret) == token && IsCanonicalUuid(id) && secret != ""
  {
    var parts := Split(token, '_', 2);
    JoinSplit(token, '_', 2);
    TokenIsJoin(parts[0], parts[1], parts[2]);
    assert parts == [parts[0], parts[1], parts[2]];
  }

  // ---- Secret hashes ----

  const N := 16384
  const R := 8
  const P := 1
  const DKLEN := 32

  /** scrypt is a parameter: password, salt, n, r, p, length. `None` is its `ValueError`. */
  type Kdf = (string, Bytes, nat, nat, nat, nat) -> Option<Bytes>

  /** `None` where scrypt raises. */
  function HashSecret(scrypt: Kdf, secret: string, salt: Bytes): Option<string> {
    match scrypt(secret, salt, N, R, P, DKLEN)
    case None => None
    case Some(digest) => Some(Join(["scrypt", "16384", "8", "1", Encode(salt), Encode(digest)], '$'))
  }

  function VerifySecret(scrypt: Kdf, secret: string, encoded: string): bool {
    var parts := Split(encoded, '$', 5);
    if |parts| != 6 || parts[0] != "scrypt" then false
    else match (Undo(parts[4]), Undo(parts[5]))
      case (Some(salt), Some(expected)) =>
        Decimal.IsNumber(parts[1]) && Decimal.IsNumber(parts[2]) && Decimal.IsNumber(parts[3])
        && scrypt(secret, salt, Decimal.Parse(parts[1]), Decimal.Parse(parts[2]), Decimal.Parse(parts[3]), |expected|) == Some(expected)
      case _ => false
  }

  lemma EncodedHasNoDollar(b: Bytes)
    ensures '$' !in Encode(b)
  {
    EncodedDigits(b);
  }

  lemma ParseStep(s: string, c: char)
    requires Decimal.IsDecimal(c) && forall i :: 0 <= i < |s| ==> Decimal.IsDecimal(s[i])
    ensures Decimal.Parse(s + [c]) == Decimal.Parse(s) * 10 + Decimal.DigitValue(c)
  {
    assert (s + [c])[..|s|] == s;
  }

  lemma TwoDigits(s: string, c: char, d: char)
    requires Decimal.IsDecimal(c) && Decimal.IsDecimal(d) && forall i :: 0 <= i < |s| ==> Decimal.IsDecimal(s[i])
    ensures Decimal.Parse(s + [c, d]) == Decimal.Parse(s) * 100 + Decimal.DigitValue(c) * 10 + Decimal.DigitValue(d)
  {
    ParseStep(s, c);
    ParseStep(s + [c], d);
    assert s + [c] + [d] == s + [c, d];
  }

  lemma ParameterTexts()
    ensures Decimal.IsNumber("16384") && Decimal.Parse("16384") == N
    ensures Decimal.IsNumber("8") && Decimal.Parse("8") == R
    ensures Decimal.IsNumber("1") && Decimal.Parse("1") == P
  {
    ParseStep("", '8');
    assert "" + ['8'] == "8";
    ParseStep("", '1');
    assert "" + ['1'] == "1";
    TwoDigits("1", '6', '3');
    assert "1" + ['6', '3'] == "163";
    TwoDigits("163", '8', '4');
    assert "163" + ['8', '4'] == "16384";
  }

  /** The fields of a stored hash: `$`-separated, with the algorithm's name, plain numbers, and readable salt
      and digest. */
  ghost predicate HashOf(encoded: string, n: string, r: string, p: string, salt: Bytes, digest: Bytes) {
    exists saltText, digestText ::
      && encoded == Join(["scrypt", n, r, p, saltText, digestText], '$')
      && '$' !in n && '$' !in r && '$' !in p && '$' !in saltText
      && Decimal.IsNumber(n) && Decimal.IsNumber(r) && Decimal.IsNumber(p)
      && Undo(saltText) == Some(salt) && Undo(digestText) == Some(digest)
  }

  lemma SixParts(parts: seq<string>)
    requires |parts| == 6
    ensures parts == [parts[0], parts[1], parts[2], parts[3], parts[4], parts[5]]
  {
  }

  /** Exactly which stored texts accept a secret: a scrypt hash in this form whose digest is what scrypt
      derives with the stored parameters and salt. Any other algorithm or shape is refused. */
  lemma VerifyExactly(scrypt: Kdf, secret: string, encoded: string)
    ensures VerifySecret(scrypt, secret, encoded)
       <==> exists n, r, p, salt, digest ::
              HashOf(encoded, n, r, p, salt, digest) && Decimal.IsNumber(n) && Decimal.IsNumber(r) && Decimal.IsNumber(p)
              && scrypt(secret, salt, Decimal.Parse(n), Decimal.Parse(r), Decimal.Parse(p), |digest|) == Some(digest)
  {
    if VerifySecret(scrypt, secret, encoded) {
      var parts := Split(encoded, '$', 5);
      JoinSplit(encoded, '$', 5);
      SplitClean(encoded, '$', 5);
      SixParts(parts);
      assert HashOf(encoded, parts[1], parts[2], parts[3], Undo(parts[4]).value, Undo(parts[5]).value);
    }
    if exists n, r, p, salt, digest ::
         HashOf(encoded, n, r, p, salt, digest) && Decimal.IsNumber(n) && Decimal.IsNumber(r) && Decimal.IsNumber(p)
         && scrypt(secret, salt, Decimal.Parse(n), Decimal.Parse(r), Decimal.Parse(p), |digest|) == Some(digest)
    {
      var n, r, p, salt, digest :|
        HashOf(encoded, n, r, p, salt, digest) && Decimal.IsNumber(n) && Decimal.IsNumber(r) && Decimal.IsNumber(p)
        && scrypt(secret, salt, Decimal.Parse(n), Decimal.Parse(r), Decimal.Parse(p), |digest|) == Some(digest);
      HashIsSplit(encoded, n, r, p, salt, digest);
    }
  }

  lemma HashIsSplit(encoded: string, n: string, r: string, p: string, salt: Bytes, digest: Bytes)
    requires HashOf(encoded, n, r, p, salt, digest)
    ensures var parts := Split(encoded, '$', 5);
            && |parts| == 6 && parts[0] == "scrypt" && parts[1] == n && parts[2] == r && parts[3] == p
            && Undo(parts[4]) == Some(salt) && Undo(parts[5]) == Some(digest)
  {
    var saltText, digestText :|
      && encoded == Join(["scrypt", n, r, p, saltText, digestText], '$')
      && '$' !in n && '$' !in r && '$' !in p && '$' !in saltText
      && Decimal.IsNumber(n) && Decimal.IsNumber(r) && Decimal.IsNumber(p)
      && Undo(saltText) == Some(salt) && Undo(digestText) == Some(digest);
    SplitSix("scrypt", n, r, p, saltText, digestText, '$');
  }

  lemma SplitSix(a: string, b: string, d: string, e: string, f: string, g: string, c: char)
    requires c !in a && c !in b && c !in d && c !in e && c !in f
    ensures Split(Join([a, b, d, e, f, g], c), c, 5) == [a, b, d, e, f, g]
  {
    var parts := [a, b, d, e, f, g];
    assert parts[0] == a && parts[1] == b && parts[2] == d && parts[3] == e && parts[4] == f;
    assert Clean(parts, c);
    SplitJoin(parts, c);
  }

  lemma HashSplits(salt: Bytes, digest: Bytes)
    ensures var parts := ["scrypt", "16384", "8", "1", Encode(salt), Encode(digest)];
            Split(Join(parts, '$'), '$', 5) == parts
  {
    EncodedHasNoDollar(salt);
    SplitSix("scrypt", "16384", "8", "1", Encode(salt), Encode(digest), '$');
  }

  /** A stored hash accepts a secret if and only if scrypt derives the same digest from it, for every
      salt; in particular every secret verifies against its own hash. */
  lemma VerifyOwnHash(scrypt: Kdf, secret: string, salt: Bytes, candidate: string)
    requires scrypt(secret, salt, N, R, P, DKLEN).Some? ==> |scrypt(secret, salt, N, R, P, DKLEN).value| == DKLEN
    requires HashSecret(scrypt, secret, salt).Some?
    ensures VerifySecret(scrypt, candidate, HashSecret(scrypt, secret, salt).value)
       <==> scrypt(candidate, salt, N, R, P, DKLEN) == scrypt(secret, salt, N, R, P, DKLEN)
    ensures VerifySecret(scrypt, secret, HashSecret(scrypt, secret, salt).value)
  {
    var digest := scrypt(secret, salt, N, R, P, DKLEN).value;
    HashSplits(salt, digest);
    UndoEncode(salt);
    UndoEncode(digest);
    ParameterTexts();
  }
}
