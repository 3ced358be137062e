/** Unpadded base64url text (RFC 4648, sections 3.5 and 5) as pagination.py and permits.py decode it
    strictly, and identity.py leniently.

    The scanner follows the decoder of Python's `binascii` character by character: four positions in
    a quad, the bits left over from the previous character, and the padding seen so far. */
module Base64Url {
  import opened Wrappers

  type Byte = b: int | 0 <= b < 256
  type Bytes = seq<Byte>

  /** The two refusals: text that is not base64 at all, and text that is not the encoding of what it decodes to. */
  datatype CodecError = Invalid | NonCanonical

  predicate IsDigit(c: char) {
    'A' <= c <= 'Z' || 'a' <= c <= 'z' || '0' <= c <= '9' || c == '-' || c == '_'
  }

  function Digit(n: int): (c: char)
    requires 0 <= n < 64
    ensures IsDigit(c)
  {
    if n < 26 then (n + 65) as char
    else if n < 52 then (n + 71) as char
    else if n < 62 then (n - 4) as char
    else if n == 62 then '-' else '_'
  }

  /** The six bits of a character, or -1. The decoder translates `-_` to `+/`, so it takes both spellings. */
  function Bits(c: char): (n: int)
    ensures -1 <= n < 64
    ensures IsDigit(c) ==> 0 <= n && Digit(n) == c
    ensures n >= 0 <==> IsDigit(c) || c == '+' || c == '/'
    ensures (c == '+' ==> n == 62) && (c == '/' ==> n == 63)
  {
    if 'A' <= c <= 'Z' then c as int - 65
    else if 'a' <= c <= 'z' then c as int - 71
    else if '0' <= c <= '9' then c as int + 4
    else if c == '-' || c == '+' then 62
    else if c == '_' || c == '/' then 63
    else -1
  }

  lemma BitsOfDigit(n: int)
    requires 0 <= n < 64
    ensures Bits(Digit(n)) == n
  {
  }

  /** The alphabet of section 5 of RFC 4648: "A" to "Z", "a" to "z", "0" to "9", "-", "_", in this order. */
  lemma AlphabetExactly(n: int)
    requires 0 <= n < 64
    ensures n == 0 ==> Digit(n) == 'A'
    ensures n == 26 ==> Digit(n) == 'a'
    ensures n == 52 ==> Digit(n) == '0'
    ensures n == 62 ==> Digit(n) == '-'
    ensures n == 63 ==> Digit(n) == '_'
    ensures n !in {0, 26, 52, 62, 63} ==> Digit(n) as int == Digit(n - 1) as int + 1
  {
  }

  // ---- Encoding ----

  type Sextet = n: int | 0 <= n < 64

  /** Three bytes are four groups of six bits. */
  function Four(p: int, q: int, r: int): (g: seq<Sextet>)
    requires 0 <= p < 256 && 0 <= q < 256 && 0 <= r < 256
    ensures |g| == 4
  {
    [p / 4, p % 4 * 16 + q / 16, q % 16 * 4 + r / 64, r % 64]
  }

  /** Bytes regrouped into six bits each, the last group filled with zero bits. */
  function Groups(b: Bytes): seq<Sextet> {
    if |b| == 0 then []
    else if |b| == 1 then Four(b[0], 0, 0)[..2]
    else if |b| == 2 then Four(b[0], b[1], 0)[..3]
    else Four(b[0], b[1], b[2]) + Groups(b[3..])
  }

  function Letters(g: seq<Sextet>): (s: string)
    ensures |s| == |g| && forall i :: 0 <= i < |g| ==> s[i] == Digit(g[i])
  {
    if |g| == 0 then "" else [Digit(g[0])] + Letters(g[1..])
  }

  /** `"=" * (-length % 4)`. */
  function Padding(length: nat): string {
    match length % 4
    case 1 => "==="
    case 2 => "=="
    case 3 => "="
    case _ => ""
  }

  /** `base64.urlsafe_b64encode`. */
  function Padded(b: Bytes): string {
    Letters(Groups(b)) + Padding(|Groups(b)|)
  }

  /** `.rstrip("=")`. */
  function Stripped(s: string): string {
    if |s| > 0 && s[|s| - 1] == '=' then Stripped(s[..|s| - 1]) else s
  }

  function Encode(b: Bytes): string {
    Stripped(Padded(b))
  }

  // ---- Decoding ----

  function Emit(b: Byte, rest: Option<Bytes>): Option<Bytes> {
    match rest
    case None => None
    case Some(bytes) => Some([b] + bytes)
  }

  /** The scanner. `quad` is the position in the current group of four, `left` the bits carried over,
      `pads` the padding seen since position two; in strict mode nothing may follow or interrupt padding. */
  function Scan(s: string, quad: int, left: int, pads: nat, strict: bool): Option<Bytes>
    requires 0 <= quad < 4 && 0 <= left < 64 && (quad == 2 ==> left < 16) && (quad == 3 ==> left < 4)
    decreases |s|
  {
    if |s| == 0 then if quad == 0 then Some([]) else None
    else if s[0] == '=' then
      if quad >= 2 && quad + pads + 1 >= 4 then if strict && |s| > 1 then None else Some([])
      else if strict && quad < 2 then None
      else Scan(s[1..], quad, left, if quad >= 2 then pads + 1 else pads, strict)
    else
      var n := Bits(s[0]);
      if n < 0 then if strict then None else Scan(s[1..], quad, left, pads, strict)
      else if strict && pads > 0 then None
      else if quad == 0 then Scan(s[1..], 1, n, 0, strict)
      else if quad == 1 then Emit(left * 4 + n / 16, Scan(s[1..], 2, n % 16, 0, strict))
      else if quad == 2 then Emit(left * 16 + n / 4, Scan(s[1..], 3, n % 4, 0, strict))
      else Emit(left * 64 + n, Scan(s[1..], 0, 0, 0, strict))
  }

  /** `_b64_decode` and `_b64url_decode_canonical`: strict scan, then the re-encoding must be the text itself. */
  function Decode(text: string): (r: Result<Bytes, CodecError>)
    ensures r.Ok? ==> Encode(r.value) == text
  {
    if text == "" then Err(Invalid)
    else match Scan(text + Padding(|text|), 0, 0, 0, true)
      case None => Err(Invalid)
      case Some(bytes) => if Encode(bytes) != text then Err(NonCanonical) else Ok(bytes)
  }

  /** `_unb64`: the lenient decoder, without the canonical check. */
  function Undo(text: string): Option<Bytes> {
    Scan(text + Padding(|text|), 0, 0, 0, false)
  }

  // ---- The unpadded form ----

  lemma {:induction false} StripConcat(x: string, y: string)
    requires |x| > 0 ==> x[|x| - 1] != '='
    ensures Stripped(x + y) == x + Stripped(y)
  {
    if |y| == 0 {
      assert x + y == x;
    } else if y[|y| - 1] == '=' {
      assert (x + y)[..|x + y| - 1] == x + y[..|y| - 1];
      StripConcat(x, y[..|y| - 1]);
    }
  }

  lemma StripPadding(n: nat)
    ensures Stripped(Padding(n)) == ""
  {
    assert "==="[..2] == "==" && "=="[..1] == "=" && "="[..0] == "";
    assert Stripped("=") == "" && Stripped("==") == "" && Stripped("===") == "";
  }

  /** Stripping the padding leaves the letters. */
  lemma EncodeIsLetters(b: Bytes)
    ensures Encode(b) == Letters(Groups(b))
  {
    StripConcat(Letters(Groups(b)), Padding(|Groups(b)|));
    StripPadding(|Groups(b)|);
  }

  // ---- Bit for bit ----

  function OfSextets(w: int, x: int, y: int, z: int): int {
    ((w * 64 + x) * 64 + y) * 64 + z
  }

  function OfBytes(p: int, q: int, r: int): int {
    (p * 256 + q) * 256 + r
  }

  /** Three bytes and their four groups are the same 24-bit number. */
  lemma FourIsThree(p: Byte, q: Byte, r: Byte)
    ensures var g := Four(p, q, r); OfSextets(g[0], g[1], g[2], g[3]) == OfBytes(p, q, r)
  {
  }

  /** Eight bits to a byte, six to a group, rounded up. */
  lemma {:induction false} GroupsLength(b: Bytes)
    ensures |Groups(b)| == |b| / 3 * 4 + (if |b| % 3 == 0 then 0 else |b| % 3 + 1)
    decreases |b|
  {
    if |b| >= 3 {
      GroupsLength(b[3..]);
    }
  }

  lemma {:induction false} BlockBits(b: Bytes, j: nat)
    requires 3 * j + 3 <= |b|
    ensures 4 * j + 4 <= |Groups(b)|
    ensures var g := Groups(b);
            OfSextets(g[4 * j], g[4 * j + 1], g[4 * j + 2], g[4 * j + 3]) == OfBytes(b[3 * j], b[3 * j + 1], b[3 * j + 2])
    decreases |b|
  {
    var head, tail := Four(b[0], b[1], b[2]), Groups(b[3..]);
    if j == 0 {
      FourIsThree(b[0], b[1], b[2]);
    } else {
      BlockBits(b[3..], j - 1);
      var k := 4 * (j - 1);
      assert (head + tail)[k + 4] == tail[k] && (head + tail)[k + 5] == tail[k + 1];
      assert (head + tail)[k + 6] == tail[k + 2] && (head + tail)[k + 7] == tail[k + 3];
    }
  }

  ghost predicate TailAgrees(b: Bytes, g: seq<Sextet>) {
    var m, n := |b|, |g|;
    && (m % 3 == 1 ==> n >= 2 && OfSextets(g[n - 2], g[n - 1], 0, 0) == OfBytes(b[m - 1], 0, 0))
    && (m % 3 == 2 ==> n >= 3 && OfSextets(g[n - 3], g[n - 2], g[n - 1], 0) == OfBytes(b[m - 2], b[m - 1], 0))
  }

  lemma TailAfter(b: Bytes, tail: seq<Sextet>, head: seq<Sextet>)
    requires |b| > 3 && |head| == 4 && TailAgrees(b[3..], tail)
    ensures TailAgrees(b, head + tail)
  {
    var g, m, n, rest := head + tail, |b|, |tail|, b[3..];
    assert m % 3 == |rest| % 3;
    if m % 3 == 1 {
      assert g[n + 2] == tail[n - 2] && g[n + 3] == tail[n - 1] && rest[m - 4] == b[m - 1];
    } else if m % 3 == 2 {
      assert g[n + 1] == tail[n - 3] && g[n + 2] == tail[n - 2] && g[n + 3] == tail[n - 1];
      assert rest[m - 5] == b[m - 2] && rest[m - 4] == b[m - 1];
    }
  }

  lemma {:induction false} TailBits(b: Bytes)
    ensures TailAgrees(b, Groups(b))
    decreases |b|
  {
    if |b| > 3 {
      TailBits(b[3..]);
      TailAfter(b, Groups(b[3..]), Four(b[0], b[1], b[2]));
    } else if |b| == 1 {
      FourIsThree(b[0], 0, 0);
    } else if |b| == 2 {
      FourIsThree(b[0], b[1], 0);
    }
  }

  /** The groups carry the bits of the bytes in order (section 4 of RFC 4648): every three bytes and their four
      groups are one number, and the one or two bytes left over are followed by zero bits only. */
  lemma GroupsAreTheBits(b: Bytes)
    ensures |Groups(b)| == (8 * |b| + 5) / 6
    ensures forall j: nat :: BlockAgrees(b, Groups(b), j)
    ensures TailAgrees(b, Groups(b))
  {
    GroupsLength(b);
    forall j: nat ensures BlockAgrees(b, Groups(b), j) {
      if 3 * j + 3 <= |b| {
        BlockBits(b, j);
      }
    }
    TailBits(b);
  }

  ghost predicate BlockAgrees(b: Bytes, g: seq<Sextet>, j: nat) {
    3 * j + 3 <= |b| ==>
      && 4 * j + 4 <= |g|
      && OfSextets(g[4 * j], g[4 * j + 1], g[4 * j + 2], g[4 * j + 3]) == OfBytes(b[3 * j], b[3 * j + 1], b[3 * j + 2])
  }

  // ---- Decoding an encoding ----

  /** One digit, at any position of the group of four. */
  lemma ScanDigit(n: int, rest: string, quad: int, left: int, strict: bool)
    requires 0 <= n < 64
    requires 0 <= quad < 4 && 0 <= left < 64 && (quad == 2 ==> left < 16) && (quad == 3 ==> left < 4)
    ensures Scan([Digit(n)] + rest, quad, left, 0, strict)
         == if quad == 0 then Scan(rest, 1, n, 0, strict)
            else if quad == 1 then Emit(left * 4 + n / 16, Scan(rest, 2, n % 16, 0, strict))
            else if quad == 2 then Emit(left * 16 + n / 4, Scan(rest, 3, n % 4, 0, strict))
            else Emit(left * 64 + n, Scan(rest, 0, 0, 0, strict))
  {
    BitsOfDigit(n);
    assert ([Digit(n)] + rest)[1..] == rest;
  }

  /** Four digits in a row make three bytes, in either mode. */
  lemma ScanQuad(w: int, x: int, y: int, z: int, rest: string, strict: bool)
    requires 0 <= w < 64 && 0 <= x < 64 && 0 <= y < 64 && 0 <= z < 64
    ensures Scan([Digit(w)] + ([Digit(x)] + ([Digit(y)] + ([Digit(z)] + rest))), 0, 0, 0, strict)
         == Emit(w * 4 + x / 16, Emit(x % 16 * 16 + y / 4, Emit(y % 4 * 64 + z, Scan(rest, 0, 0, 0, strict))))
  {
    ScanDigit(z, rest, 3, y % 4, strict);
    ScanDigit(y, [Digit(z)] + rest, 2, x % 16, strict);
    ScanDigit(x, [Digit(y)] + ([Digit(z)] + rest), 1, w, strict);
    ScanDigit(w, [Digit(x)] + ([Digit(y)] + ([Digit(z)] + rest)), 0, 0, strict);
  }

  lemma ScanTail1(w: int, x: int, strict: bool)
    requires 0 <= w < 64 && 0 <= x < 64
    ensures Scan([Digit(w)] + ([Digit(x)] + "=="), 0, 0, 0, strict) == Emit(w * 4 + x / 16, Some([]))
  {
    ScanDigit(w, [Digit(x)] + "==", 0, 0, strict);
    ScanDigit(x, "==", 1, w, strict);
    assert "=="[1..] == "=";
    assert Scan("=", 2, x % 16, 1, strict) == Some([]);
  }

  lemma ScanTail2(w: int, x: int, y: int, strict: bool)
    requires 0 <= w < 64 && 0 <= x < 64 && 0 <= y < 64
    ensures Scan([Digit(w)] + ([Digit(x)] + ([Digit(y)] + "=")), 0, 0, 0, strict)
         == Emit(w * 4 + x / 16, Emit(x % 16 * 16 + y / 4, Some([])))
  {
    ScanDigit(w, [Digit(x)] + ([Digit(y)] + "="), 0, 0, strict);
    ScanDigit(x, [Digit(y)] + "=", 1, w, strict);
    ScanDigit(y, "=", 2, x % 16, strict);
    assert Scan("=", 3, y % 4, 0, strict) == Some([]);
  }

  lemma SplitBytes(p: Byte, q: Byte, r: Byte)
    ensures var x, y := p % 4 * 16 + q / 16, q % 16 * 4 + r / 64;
            p / 4 * 4 + x / 16 == p && x % 16 * 16 + y / 4 == q && y % 4 * 64 + r % 64 == r
    ensures p / 4 * 4 + (p % 4 * 16) / 16 == p
    ensures (p % 4 * 16 + q / 16) % 16 * 16 + (q % 16 * 4) / 4 == q
  {
  }

  lemma {:induction false} LettersConcat(a: seq<Sextet>, b: seq<Sextet>)
    ensures Letters(a + b) == Letters(a) + Letters(b)
  {
  }

  lemma ScanOne(p: Byte, strict: bool)
    ensures Scan(Padded([p]), 0, 0, 0, strict) == Some([p])
  {
    ScanTail1(p / 4, p % 4 * 16, strict);
    SplitBytes(p, 0, 0);
    assert Groups([p]) == [p / 4, p % 4 * 16];
    assert Padded([p]) == [Digit(p / 4)] + ([Digit(p % 4 * 16)] + "==");
    assert [p] + [] == [p];
  }

  lemma ScanTwo(p: Byte, q: Byte, strict: bool)
    ensures Scan(Padded([p, q]), 0, 0, 0, strict) == Some([p, q])
  {
    ScanTail2(p / 4, p % 4 * 16 + q / 16, q % 16 * 4, strict);
    SplitBytes(p, q, 0);
    assert Groups([p, q]) == [p / 4, p % 4 * 16 + q / 16, q % 16 * 4];
    assert Padded([p, q]) == [Digit(p / 4)] + ([Digit(p % 4 * 16 + q / 16)] + ([Digit(q % 16 * 4)] + "="));
    assert [q] + [] == [q] && [p] + [q] == [p, q];
  }

  lemma FourLetters(w: Sextet, x: Sextet, y: Sextet, z: Sextet, rest: string)
    ensures Letters([w, x, y, z]) + rest == [Digit(w)] + ([Digit(x)] + ([Digit(y)] + ([Digit(z)] + rest)))
  {
    assert Letters([w, x, y, z]) == [Digit(w), Digit(x), Digit(y), Digit(z)];
  }

  /** Three bytes, then the rest. */
  lemma ScanThree(p: Byte, q: Byte, r: Byte, rest: string, strict: bool)
    ensures Scan(Letters(Four(p, q, r)) + rest, 0, 0, 0, strict) == Emit(p, Emit(q, Emit(r, Scan(rest, 0, 0, 0, strict))))
  {
    var x, y := p % 4 * 16 + q / 16, q % 16 * 4 + r / 64;
    ScanQuad(p / 4, x, y, r % 64, rest, strict);
    SplitBytes(p, q, r);
    FourLetters(p / 4, x, y, r % 64, rest);
  }

  lemma PaddingPeriod(n: nat)
    ensures Padding(n + 4) == Padding(n)
  {
  }

  lemma PaddedStep(g: seq<Sextet>, rest: seq<Sextet>)
    requires |g| == 4
    ensures Letters(g + rest) + Padding(|g + rest|) == Letters(g) + (Letters(rest) + Padding(|rest|))
  {
    LettersConcat(g, rest);
    assert |g + rest| == |rest| + 4;
    PaddingPeriod(|rest|);
    ConcatAssociates(Letters(g), Letters(rest), Padding(|rest|));
  }

  lemma ConcatAssociates(a: string, b: string, c: string)
    ensures a + b + c == a + (b + c)
  {
  }

  lemma {:induction false} ScanPadded(b: Bytes, strict: bool)
    ensures Scan(Padded(b), 0, 0, 0, strict) == Some(b)
    decreases |b|
  {
    if |b| == 1 {
      ScanOne(b[0], strict);
      assert b == [b[0]];
    } else if |b| == 2 {
      ScanTwo(b[0], b[1], strict);
      assert b == [b[0], b[1]];
    } else if |b| >= 3 {
      ScanPadded(b[3..], strict);
      ScanPaddedStep(b[0], b[1], b[2], b[3..], strict);
      assert b == [b[0], b[1], b[2]] + b[3..];
    }
  }

  lemma ScanPaddedStep(p: Byte, q: Byte, r: Byte, tail: Bytes, strict: bool)
    requires Scan(Padded(tail), 0, 0, 0, strict) == Some(tail)
    ensures Scan(Padded([p, q, r] + tail), 0, 0, 0, strict) == Some([p, q, r] + tail)
  {
    GroupsBlock([p, q, r], tail);
    PaddedStep(Four(p, q, r), Groups(tail));
    ScanThree(p, q, r, Padded(tail), strict);
    assert [p, q, r] + tail == [p] + ([q] + ([r] + tail));
  }

  lemma PaddedIsEncoded(b: Bytes)
    ensures Padded(b) == Encode(b) + Padding(|Encode(b)|)
  {
    EncodeIsLetters(b);
  }

  /** Decoding an encoding gives the bytes back, exactly for the non-empty byte strings: the empty
      string encodes to empty text, which the decoder refuses. */
  lemma DecodeEncode(b: Bytes)
    ensures Decode(Encode(b)) == Ok(b) <==> b != []
    ensures b == [] ==> Decode(Encode(b)) == Err(Invalid)
  {
    ScanPadded(b, true);
    PaddedIsEncoded(b);
    EncodeIsLetters(b);
  }

  /** The lenient decoder undoes every encoding, the empty one included. */
  lemma UndoEncode(b: Bytes)
    ensures Undo(Encode(b)) == Some(b)
  {
    ScanPadded(b, false);
    PaddedIsEncoded(b);
  }

  // ---- Which texts are accepted ----

  /** The groups of canonical text: no dangling single group, and zero bits at the end. */
  ghost predicate WholeBytes(g: seq<Sextet>) {
    && |g| % 4 != 1
    && (|g| % 4 == 2 ==> g[|g| - 1] % 16 == 0)
    && (|g| % 4 == 3 ==> g[|g| - 1] % 4 == 0)
  }

  /** Canonical text (RFC 4648, section 3.5), said without encoding or decoding: alphabet characters
      only, whose bits make whole bytes followed by zero bits. */
  ghost predicate Canonical(text: string) {
    (forall i :: 0 <= i < |text| ==> IsDigit(text[i])) && WholeBytes(Values(text))
  }

  function Values(text: string): (g: seq<Sextet>)
    requires forall i :: 0 <= i < |text| ==> IsDigit(text[i])
    ensures |g| == |text| && forall i :: 0 <= i < |g| ==> g[i] == Bits(text[i])
  {
    if |text| == 0 then [] else [Bits(text[0])] + Values(text[1..])
  }

  lemma {:induction false} LettersValues(text: string)
    requires forall i :: 0 <= i < |text| ==> IsDigit(text[i])
    ensures Letters(Values(text)) == text
  {
    if |text| > 0 {
      LettersValues(text[1..]);
    }
  }

  lemma {:induction false} ValuesLetters(g: seq<Sextet>)
    ensures Values(Letters(g)) == g
  {
    if |g| > 0 {
      ValuesLetters(g[1..]);
      BitsOfDigit(g[0]);
    }
  }

  lemma WholeAppend(g: seq<Sextet>, rest: seq<Sextet>)
    requires |g| == 4
    ensures WholeBytes(g + rest) <==> WholeBytes(rest)
  {
    assert |g + rest| % 4 == |rest| % 4;
    assert |rest| > 0 ==> (g + rest)[|g + rest| - 1] == rest[|rest| - 1];
  }

  lemma {:induction false} GroupsAreWhole(b: Bytes)
    ensures WholeBytes(Groups(b))
    decreases |b|
  {
    if |b| >= 3 {
      GroupsAreWhole(b[3..]);
      WholeAppend(Four(b[0], b[1], b[2]), Groups(b[3..]));
    }
  }

  /** Four groups are three bytes. */
  function Three(w: int, x: int, y: int, z: int): (b: Bytes)
    requires 0 <= w < 64 && 0 <= x < 64 && 0 <= y < 64 && 0 <= z < 64
    ensures |b| == 3
  {
    [w * 4 + x / 16, x % 16 * 16 + y / 4, y % 4 * 64 + z]
  }

  /** The bytes that whole groups came from. */
  function Ungroup(g: seq<Sextet>): Bytes {
    if |g| < 2 then []
    else if |g| == 2 then Three(g[0], g[1], 0, 0)[..1]
    else if |g| == 3 then Three(g[0], g[1], g[2], 0)[..2]
    else Three(g[0], g[1], g[2], g[3]) + Ungroup(g[4..])
  }

  lemma FirstBits(w: int, x: int)
    requires 0 <= x < 64
    ensures (w * 4 + x / 16) / 4 == w && (w * 4 + x / 16) % 4 == x / 16
  {
  }

  lemma MiddleBits(x: int, y: int)
    requires 0 <= y < 64
    ensures (x % 16 * 16 + y / 4) / 16 == x % 16 && (x % 16 * 16 + y / 4) % 16 == y / 4
  {
  }

  lemma LastBits(y: int, z: int)
    requires 0 <= z < 64
    ensures (y % 4 * 64 + z) / 64 == y % 4 && (y % 4 * 64 + z) % 64 == z
  {
  }

  lemma FourIs(p: int, q: int, r: int, w: int, x: int, y: int, z: int)
    requires 0 <= p < 256 && 0 <= q < 256 && 0 <= r < 256
    requires p / 4 == w && p % 4 == x / 16 && q / 16 == x % 16 && q % 16 == y / 4 && r / 64 == y % 4 && r % 64 == z
    ensures Four(p, q, r) == [w, x, y, z]
  {
    assert x / 16 * 16 + x % 16 == x && y / 4 * 4 + y % 4 == y;
  }

  lemma FourOfThree(w: int, x: int, y: int, z: int)
    requires 0 <= w < 64 && 0 <= x < 64 && 0 <= y < 64 && 0 <= z < 64
    ensures var b := Three(w, x, y, z); Four(b[0], b[1], b[2]) == [w, x, y, z]
  {
    FirstBits(w, x);
    MiddleBits(x, y);
    LastBits(y, z);
    var b := Three(w, x, y, z);
    FourIs(b[0], b[1], b[2], w, x, y, z);
  }

  lemma GroupsBlock(head: Bytes, tail: Bytes)
    requires |head| == 3
    ensures Groups(head + tail) == Four(head[0], head[1], head[2]) + Groups(tail)
  {
    assert (head + tail)[3..] == tail;
  }

  lemma {:induction false} GroupsUngroup(g: seq<Sextet>)
    requires WholeBytes(g)
    ensures Groups(Ungroup(g)) == g
    decreases |g|
  {
    if |g| >= 4 {
      var rest := g[4..];
      assert g == g[..4] + rest;
      WholeAppend(g[..4], rest);
      GroupsUngroup(rest);
      GroupsBlock(Three(g[0], g[1], g[2], g[3]), Ungroup(rest));
      FourOfThree(g[0], g[1], g[2], g[3]);
      assert g == [g[0], g[1], g[2], g[3]] + rest;
    } else if |g| == 2 {
      ShortGroup(g[0], g[1]);
      assert g == [g[0], g[1]];
    } else if |g| == 3 {
      LongGroup(g[0], g[1], g[2]);
      assert g == [g[0], g[1], g[2]];
    }
  }

  lemma ShortGroup(w: int, x: int)
    requires 0 <= w < 64 && 0 <= x < 64 && x % 16 == 0
    ensures Groups(Three(w, x, 0, 0)[..1]) == [w, x]
  {
    FourOfThree(w, x, 0, 0);
    assert Three(w, x, 0, 0)[1] == 0;
  }

  lemma LongGroup(w: int, x: int, y: int)
    requires 0 <= w < 64 && 0 <= x < 64 && 0 <= y < 64 && y % 4 == 0
    ensures Groups(Three(w, x, y, 0)[..2]) == [w, x, y]
  {
    FourOfThree(w, x, y, 0);
    assert Three(w, x, y, 0)[2] == 0;
  }

  /** Any text is accepted if and only if it is non-empty and canonical. */
  lemma AcceptsExactlyCanonical(text: string)
    ensures Decode(text).Ok? <==> text != "" && Canonical(text)
  {
    if Decode(text).Ok? {
      var b := Decode(text).value;
      EncodeIsLetters(b);
      GroupsAreWhole(b);
      ValuesLetters(Groups(b));
    }
    if text != "" && Canonical(text) {
      var b := Ungroup(Values(text));
      GroupsUngroup(Values(text));
      LettersValues(text);
      EncodeIsLetters(b);
      DecodeEncode(b);
    }
  }

  // ---- Which refusal ----

  function Scanned(g: seq<Sextet>): Option<Bytes> {
    if |g| % 4 == 1 then None else Some(Ungroup(g))
  }

  lemma UngroupBlock(head: seq<Sextet>, tail: seq<Sextet>)
    requires |head| == 4
    ensures Ungroup(head + tail) == Three(head[0], head[1], head[2], head[3]) + Ungroup(tail)
  {
    assert (head + tail)[4..] == tail;
    assert |head + tail| >= 4;
  }

  lemma EmitThree(b: Bytes, rest: Option<Bytes>)
    requires |b| == 3
    ensures Emit(b[0], Emit(b[1], Emit(b[2], rest))) == if rest.None? then None else Some(b + rest.value)
  {
    if rest.Some? {
      assert b + rest.value == [b[0]] + ([b[1]] + ([b[2]] + rest.value));
    }
  }

  lemma ScannedBlock(head: seq<Sextet>, tail: seq<Sextet>)
    requires |head| == 4
    ensures Scanned(head + tail)
         == if Scanned(tail).None? then None else Some(Three(head[0], head[1], head[2], head[3]) + Scanned(tail).value)
  {
    UngroupBlock(head, tail);
    assert |head + tail| % 4 == |tail| % 4;
  }

  lemma BlockText(head: seq<Sextet>, tail: seq<Sextet>)
    requires |head| == 4
    ensures Letters(head + tail) + Padding(|head + tail|)
         == [Digit(head[0])] + ([Digit(head[1])] + ([Digit(head[2])] + ([Digit(head[3])] + (Letters(tail) + Padding(|tail|)))))
  {
    PaddedStep(head, tail);
    assert head == [head[0], head[1], head[2], head[3]];
    FourLetters(head[0], head[1], head[2], head[3], Letters(tail) + Padding(|tail|));
  }

  lemma ScanBlock(head: seq<Sextet>, tail: seq<Sextet>, strict: bool)
    requires |head| == 4 && Scan(Letters(tail) + Padding(|tail|), 0, 0, 0, strict) == Scanned(tail)
    ensures Scan(Letters(head + tail) + Padding(|head + tail|), 0, 0, 0, strict) == Scanned(head + tail)
  {
    BlockText(head, tail);
    ScanQuad(head[0], head[1], head[2], head[3], Letters(tail) + Padding(|tail|), strict);
    EmitThree(Three(head[0], head[1], head[2], head[3]), Scanned(tail));
    ScannedBlock(head, tail);
  }

  lemma ScanShort(g: seq<Sextet>, strict: bool)
    requires |g| < 4
    ensures Scan(Letters(g) + Padding(|g|), 0, 0, 0, strict) == Scanned(g)
  {
    if |g| == 3 {
      assert g == [g[0], g[1], g[2]];
      assert Letters(g) + "=" == [Digit(g[0])] + ([Digit(g[1])] + ([Digit(g[2])] + "="));
      ScanTail2(g[0], g[1], g[2], strict);
      var b := Three(g[0], g[1], g[2], 0);
      assert [b[0]] + ([b[1]] + []) == b[..2];
    } else if |g| == 2 {
      assert g == [g[0], g[1]];
      assert Letters(g) + "==" == [Digit(g[0])] + ([Digit(g[1])] + "==");
      ScanTail1(g[0], g[1], strict);
      var b := Three(g[0], g[1], 0, 0);
      assert [b[0]] + [] == b[..1];
    } else if |g| == 1 {
      assert g == [g[0]];
      assert Letters(g) + "===" == [Digit(g[0])] + "===";
      ScanDangling(g[0], strict);
    }
  }

  /** Scanning letters, padded as the decoders pad them: a dangling single group is refused, and otherwise the
      whole bytes come out, whatever bits are left over. */
  lemma {:induction false} ScanLetters(g: seq<Sextet>, strict: bool)
    ensures Scan(Letters(g) + Padding(|g|), 0, 0, 0, strict) == if |g| % 4 == 1 then None else Some(Ungroup(g))
    decreases |g|
  {
    if |g| >= 4 {
      ScanLetters(g[4..], strict);
      ScanBlock(g[..4], g[4..], strict);
      assert g == g[..4] + g[4..];
    } else {
      ScanShort(g, strict);
    }
  }

  lemma ScanDangling(w: int, strict: bool)
    requires 0 <= w < 64
    ensures Scan([Digit(w)] + "===", 0, 0, 0, strict) == None
  {
    ScanDigit(w, "===", 0, 0, strict);
    assert "==="[1..] == "==" && "=="[1..] == "=" && "="[1..] == "";
    assert Scan("", 1, w, 0, strict) == None;
    assert Scan("=", 1, w, 0, strict) == None;
    assert Scan("==", 1, w, 0, strict) == None;
  }

  /** On text of alphabet characters the decoder is exactly this: empty text and a dangling character are
      invalid, left-over bits other than zero are not canonical, and everything else is decoded. */
  lemma DecodeLetters(text: string)
    requires forall i :: 0 <= i < |text| ==> IsDigit(text[i])
    ensures Decode(text)
         == if text == "" || |text| % 4 == 1 then Err(Invalid)
            else if WholeBytes(Values(text)) then Ok(Ungroup(Values(text)))
            else Err(NonCanonical)
  {
    var g := Values(text);
    LettersValues(text);
    ScanLetters(g, true);
    EncodeIsLetters(Ungroup(g));
    if WholeBytes(g) {
      GroupsUngroup(g);
    } else {
      AcceptsExactlyCanonical(text);
    }
  }

  /** The scanner sees characters only through their bits. */
  lemma {:induction false} ScanSame(s: string, t: string, quad: int, left: int, pads: nat, strict: bool)
    requires 0 <= quad < 4 && 0 <= left < 64 && (quad == 2 ==> left < 16) && (quad == 3 ==> left < 4)
    requires |s| == |t| && forall i :: 0 <= i < |s| ==> Bits(s[i]) == Bits(t[i]) && (s[i] == '=' <==> t[i] == '=')
    ensures Scan(s, quad, left, pads, strict) == Scan(t, quad, left, pads, strict)
    decreases |s|
  {
    if |s| > 0 {
      var x, y, n := s[1..], t[1..], Bits(s[0]);
      if s[0] == '=' {
        ScanSame(x, y, quad, left, if quad >= 2 then pads + 1 else pads, strict);
      } else if n < 0 {
        ScanSame(x, y, quad, left, pads, strict);
      } else if quad == 0 {
        ScanSame(x, y, 1, n, 0, strict);
      } else if quad == 1 {
        ScanSame(x, y, 2, n % 16, 0, strict);
      } else if quad == 2 {
        ScanSame(x, y, 3, n % 4, 0, strict);
      } else {
        ScanSame(x, y, 0, 0, 0, strict);
      }
    }
  }

  function AllBits(text: string): (g: seq<Sextet>)
    requires forall i :: 0 <= i < |text| ==> Bits(text[i]) >= 0
    ensures |g| == |text| && forall i :: 0 <= i < |g| ==> g[i] == Bits(text[i])
  {
    if |text| == 0 then [] else [Bits(text[0])] + AllBits(text[1..])
  }

  /** Text in the older spelling, with "+" or "/", decodes but is not canonical, unless it is dangling. */
  lemma OtherSpelling(text: string, k: nat)
    requires (forall i :: 0 <= i < |text| ==> Bits(text[i]) >= 0) && k < |text| && !IsDigit(text[k])
    ensures Decode(text) == if |text| % 4 == 1 then Err(Invalid) else Err(NonCanonical)
  {
    var g := AllBits(text);
    var t := Letters(g);
    SameBits(text, Padding(|text|));
    ScanSame(text + Padding(|text|), t + Padding(|text|), 0, 0, 0, true);
    ScanLetters(g, true);
    if |text| % 4 != 1 {
      EncodedDigits(Ungroup(g));
      assert Encode(Ungroup(g)) != text;
    }
  }

  lemma SameBits(text: string, tail: string)
    requires forall i :: 0 <= i < |text| ==> Bits(text[i]) >= 0
    ensures var s, t := text + tail, Letters(AllBits(text)) + tail;
            |s| == |t| && forall i :: 0 <= i < |s| ==> Bits(s[i]) == Bits(t[i]) && (s[i] == '=' <==> t[i] == '=')
  {
    var g := AllBits(text);
    forall i | 0 <= i < |g| ensures Bits(Digit(g[i])) == Bits(text[i]) {
      BitsOfDigit(g[i]);
    }
  }

  /** A character that is in neither spelling of the alphabet, nor padding, is invalid wherever it stands. */
  lemma {:induction false} ScanStray(s: string, quad: int, left: int, pads: nat, k: nat)
    requires 0 <= quad < 4 && 0 <= left < 64 && (quad == 2 ==> left < 16) && (quad == 3 ==> left < 4)
    requires k < |s| && Bits(s[k]) < 0 && s[k] != '='
    ensures Scan(s, quad, left, pads, true) == None
    decreases |s|
  {
    if k > 0 {
      assert s[1..][k - 1] == s[k];
      if s[0] == '=' {
        if quad >= 2 && quad + pads + 1 < 4 {
          ScanStray(s[1..], quad, left, pads + 1, k - 1);
        }
      } else if Bits(s[0]) >= 0 && pads == 0 {
        var n := Bits(s[0]);
        if quad == 0 {
          ScanStray(s[1..], 1, n, 0, k - 1);
        } else if quad == 1 {
          ScanStray(s[1..], 2, n % 16, 0, k - 1);
        } else if quad == 2 {
          ScanStray(s[1..], 3, n % 4, 0, k - 1);
        } else {
          ScanStray(s[1..], 0, 0, 0, k - 1);
        }
      }
    }
  }

  lemma StrayIsInvalid(text: string, k: nat)
    requires k < |text| && Bits(text[k]) < 0 && text[k] != '='
    ensures Decode(text) == Err(Invalid)
  {
    var padded := text + Padding(|text|);
    assert padded[k] == text[k];
    ScanStray(padded, 0, 0, 0, k);
  }

  /** Accepted text is exactly the encoding of its bytes, so two texts never decode to the same bytes. */
  lemma DecodeInjective(s: string, t: string)
    requires Decode(s).Ok? && Decode(s) == Decode(t)
    ensures s == t == Encode(Decode(s).value)
  {
  }

  lemma EncodeInjective(a: Bytes, b: Bytes)
    requires Encode(a) == Encode(b)
    ensures a == b
  {
    UndoEncode(a);
    UndoEncode(b);
  }

  /** Encoded text consists of alphabet characters, so it never contains a separator. */
  lemma EncodedDigits(b: Bytes)
    ensures forall i :: 0 <= i < |Encode(b)| ==> IsDigit(Encode(b)[i])
    ensures Encode(b) == "" <==> b == []
  {
    EncodeIsLetters(b);
    UndoEncode(b);
    UndoEncode([]);
  }
}
