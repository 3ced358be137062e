/** The signed cursor of pagination.py: canonical JSON and its HMAC, both in canonical base64url, joined by
    a dot. HMAC-SHA256, the JSON library and the timestamp text are parameters with stated laws. */
module CursorCodec {
  import opened Wrappers
  import opened Base64Url
  import Tokens

  const MAXIMUM_CURSOR_LENGTH := 4096

  /** A JSON value as far as the decoder looks at it. */
  datatype Field = Text(text: string) | Number(number: int) | Fraction(digits: string) | Truth(flag: bool) | TextMap(entries: map<string, string>) | Other(raw: string)

  type Object = map<string, Field>

  datatype Json = JsonObject(members: Object) | NotAnObject

  /** `dumps` is the canonical form (sorted keys, no spaces, ASCII), or nothing where the printer refuses the
      value; `stamp` is the timestamp text, or nothing outside the calendar's range; `parseTime` reads a
      timestamp text without its final "Z". */
  datatype Env = Env(
    mac: Bytes -> Bytes,
    dumps: Object -> Option<Bytes>,
    loads: Bytes -> Option<Json>,
    stamp: int -> Option<string>,
    parseTime: string -> Option<int>)

  /** What is assumed of the libraries: a printed payload reads back and is not empty, signatures are not
      empty, and a printed timestamp ends in "Z" and reads back. */
  ghost predicate Lawful(env: Env) {
    && (forall scope, position, expiresAt :: PrintsAndReads(env, PayloadOf(scope, position, expiresAt)))
    && (forall b :: env.mac(b) != [])
    && (forall t :: env.stamp(t).Some? ==> EndsWithZ(env.stamp(t).value) && env.parseTime(WithoutZ(env.stamp(t).value)) == Some(t))
  }

  predicate PrintsAndReads(env: Env, o: Object) {
    env.dumps(o).Some? ==> env.dumps(o).value != [] && env.loads(env.dumps(o).value) == Some(JsonObject(o))
  }

  predicate EndsWithZ(s: string) {
    |s| > 0 && s[|s| - 1] == 'Z'
  }

  function WithoutZ(s: string): string {
    if |s| > 0 then s[..|s| - 1] else s
  }

  datatype Scope = Scope(organizationId: string, resource: string, filters: map<string, string>)

  datatype Position = Position(orderedAt: string, resourceId: string)

  datatype CursorError =
    | ResourceInvalid | TimeOutOfRange | TooLong | CursorInvalid | NonCanonicalCursor | SignatureInvalid | VersionUnsupported
    | ScopeMismatch | ResourceMismatch | FilterMismatch | Expired

  /** `^[a-z][a-z0-9._-]{0,63}$`. */
  predicate IsResource(s: string) {
    && 1 <= |s| <= 64 && 'a' <= s[0] <= 'z'
    && forall i :: 1 <= i < |s| ==> 'a' <= s[i] <= 'z' || '0' <= s[i] <= '9' || s[i] in {'.', '_', '-'}
  }

  const REQUIRED: set<string> := {"v", "organization_id", "resource", "filters", "ordered_at", "resource_id", "expires_at"}

  function PayloadOf(scope: Scope, position: Position, expiresAt: string): (o: Object)
    ensures o.Keys == REQUIRED
  {
    map["v" := Number(1), "organization_id" := Text(scope.organizationId), "resource" := Text(scope.resource),
        "filters" := TextMap(scope.filters), "ordered_at" := Text(position.orderedAt),
        "resource_id" := Text(position.resourceId), "expires_at" := Text(expiresAt)]
  }

  /** `f"{b64(raw)}.{b64(hmac(raw))}"`. */
  function Token(env: Env, raw: Bytes): string {
    Encode(raw) + ['.'] + Encode(env.mac(raw))
  }

  function EncodeCursor(env: Env, validity: int, scope: Scope, position: Position, now: int): Result<string, CursorError> {
    if !IsResource(scope.resource) then Err(ResourceInvalid)
    else
      match env.stamp(now + validity)
      case None => Err(TimeOutOfRange)
      case Some(expiresAt) =>
        match env.dumps(PayloadOf(scope, position, expiresAt))
        case None => Err(CursorInvalid)
        case Some(raw) => if |Token(env, raw)| > MAXIMUM_CURSOR_LENGTH then Err(TooLong) else Ok(Token(env, raw))
  }

  function Lift(r: Result<Bytes, CodecError>): Result<Bytes, CursorError> {
    match r
    case Ok(b) => Ok(b)
    case Err(Invalid) => Err(CursorInvalid)
    case Err(NonCanonical) => Err(NonCanonicalCursor)
  }

  /** Python's `== 1` also holds of `true` and `1.0`. */
  predicate EqualsOne(f: Field) {
    f == Number(1) || f == Truth(true) || f == Fraction("1.0")
  }

  /** The checks on a payload whose signature is good, in the source's order. */
  function CheckPayload(env: Env, raw: Bytes, scope: Scope, now: int): Result<Position, CursorError> {
    match env.loads(raw)
    case None => Err(CursorInvalid)
    case Some(NotAnObject) => Err(CursorInvalid)
    case Some(JsonObject(o)) =>
      if o.Keys != REQUIRED then Err(CursorInvalid)
      else if env.dumps(o).None? then Err(CursorInvalid)
      else if env.dumps(o).value != raw then Err(NonCanonicalCursor)
      else if !EqualsOne(o["v"]) then Err(VersionUnsupported)
      else if o["organization_id"] != Text(scope.organizationId) then Err(ScopeMismatch)
      else if o["resource"] != Text(scope.resource) then Err(ResourceMismatch)
      else if o["filters"] != TextMap(scope.filters) then Err(FilterMismatch)
      else if !o["expires_at"].Text? || !EndsWithZ(o["expires_at"].text) then Err(CursorInvalid)
      else match env.parseTime(WithoutZ(o["expires_at"].text))
        case None => Err(CursorInvalid)
        case Some(expiry) =>
          if env.stamp(expiry) != Some(o["expires_at"].text) then Err(NonCanonicalCursor)
          else if now >= expiry then Err(Expired)
          else if !o["ordered_at"].Text? || o["ordered_at"].text == "" then Err(CursorInvalid)
          else if !o["resource_id"].Text? || o["resource_id"].text == "" then Err(CursorInvalid)
          else Ok(Position(o["ordered_at"].text, o["resource_id"].text))
  }

  function DecodeCursor(env: Env, cursor: string, scope: Scope, now: int): Result<Position, CursorError> {
    if cursor == "" || |cursor| > MAXIMUM_CURSOR_LENGTH then Err(CursorInvalid)
    else
      var dot := Tokens.IndexOf(cursor, '.');
      if dot == |cursor| || dot == 0 || dot == |cursor| - 1 then Err(CursorInvalid)
      else match Lift(Decode(cursor[..dot]))
        case Err(e) => Err(e)
        case Ok(raw) =>
          match Lift(Decode(cursor[dot + 1..]))
          case Err(e) => Err(e)
          case Ok(supplied) => if env.mac(raw) != supplied then Err(SignatureInvalid) else CheckPayload(env, raw, scope, now)
  }

  // ---- A produced cursor ----

  lemma NoDotInside(b: Bytes)
    ensures '.' !in Encode(b)
  {
    EncodedDigits(b);
  }

  /** The dot is outside the alphabet, so the two halves are found again and decode to what was signed. */
  lemma TokenSplits(env: Env, raw: Bytes, scope: Scope, now: int)
    requires raw != [] && env.mac(raw) != [] && |Token(env, raw)| <= MAXIMUM_CURSOR_LENGTH
    ensures DecodeCursor(env, Token(env, raw), scope, now) == CheckPayload(env, raw, scope, now)
  {
    var head, tail, cursor := Encode(raw), Encode(env.mac(raw)), Token(env, raw);
    NoDotInside(raw);
    Tokens.IndexOfConcat(head, '.', tail);
    EncodedDigits(raw);
    EncodedDigits(env.mac(raw));
    assert cursor[..|head|] == head && cursor[|head| + 1..] == tail;
    DecodeEncode(raw);
    DecodeEncode(env.mac(raw));
  }

  /** What the decoder answers to a cursor the encoder produced, for every organization, resource, filter
      map and time: the same position for the same scope before expiry, provided its fields are not
      empty, and otherwise the refusal named here. */
  lemma DecodeProduced(env: Env, validity: int, scope: Scope, position: Position, now: int, asked: Scope, later: int)
    requires Lawful(env) && EncodeCursor(env, validity, scope, position, now).Ok?
    ensures DecodeCursor(env, EncodeCursor(env, validity, scope, position, now).value, asked, later)
         == if asked.organizationId != scope.organizationId then Err(ScopeMismatch)
            else if asked.resource != scope.resource then Err(ResourceMismatch)
            else if asked.filters != scope.filters then Err(FilterMismatch)
            else if later >= now + validity then Err(Expired)
            else if position.orderedAt == "" || position.resourceId == "" then Err(CursorInvalid)
            else Ok(position)
  {
    var expiresAt := env.stamp(now + validity).value;
    var o := PayloadOf(scope, position, expiresAt);
    assert PrintsAndReads(env, o);
    TokenSplits(env, env.dumps(o).value, asked, later);
    PayloadFields(scope, position, expiresAt);
    assert env.parseTime(WithoutZ(expiresAt)) == Some(now + validity);
  }

  /** Exactly when a cursor is issued, and the refusal in every other case: a resource of 1 to 64 characters
      from the stated alphabet that starts with a letter, a time within the calendar, a payload the
      printer takes, and at most 4096 characters in all. */
  lemma EncodeExactly(env: Env, validity: int, scope: Scope, position: Position, now: int)
    ensures var r := EncodeCursor(env, validity, scope, position, now);
            var named := |scope.resource| > 0 && |scope.resource| <= 64 && 'a' <= scope.resource[0] <= 'z'
                         && forall i :: 0 < i < |scope.resource| ==>
                              var c := scope.resource[i];
                              'a' <= c <= 'z' || '0' <= c <= '9' || c == '.' || c == '_' || c == '-';
            && (!named <==> r == Err(ResourceInvalid))
            && (named && env.stamp(now + validity).None? <==> r == Err(TimeOutOfRange))
            && (named && env.stamp(now + validity).Some? ==>
                  var payload := env.dumps(PayloadOf(scope, position, env.stamp(now + validity).value));
                  r == if payload.None? then Err(CursorInvalid)
                       else if |Encode(payload.value)| + 1 + |Encode(env.mac(payload.value))| > 4096 then Err(TooLong)
                       else Ok(Encode(payload.value) + "." + Encode(env.mac(payload.value))))
  {
  }

  lemma PayloadFields(scope: Scope, position: Position, expiresAt: string)
    ensures var o := PayloadOf(scope, position, expiresAt);
            && o["v"] == Number(1) && o["organization_id"] == Text(scope.organizationId) && o["resource"] == Text(scope.resource)
            && o["filters"] == TextMap(scope.filters) && o["ordered_at"] == Text(position.orderedAt)
            && o["resource_id"] == Text(position.resourceId) && o["expires_at"] == Text(expiresAt)
  {
  }

  // ---- An accepted cursor ----

  /** The payload of an accepted cursor. */
  function AcceptedPayload(env: Env, cursor: string): Object
  {
    match Decode(cursor[..Tokens.IndexOf(cursor, '.')])
    case Err(_) => map[]
    case Ok(raw) =>
      match env.loads(raw)
      case Some(JsonObject(o)) => o
      case _ => map[]
  }

  /** Whoever made it, an accepted cursor is letter for letter the signed canonical form of its payload, is
      bound to the scope it was accepted for, and has not expired. */
  lemma AcceptedIsCanonical(env: Env, cursor: string, scope: Scope, now: int)
    requires DecodeCursor(env, cursor, scope, now).Ok?
    ensures var o := AcceptedPayload(env, cursor);
            && |cursor| <= 4096 && env.dumps(o).Some? && cursor == Token(env, env.dumps(o).value) && o.Keys == REQUIRED && EqualsOne(o["v"])
            && o["organization_id"] == Text(scope.organizationId) && o["resource"] == Text(scope.resource)
            && o["filters"] == TextMap(scope.filters)
            && o["expires_at"].Text? && EndsWithZ(o["expires_at"].text)
            && (exists expiry :: env.parseTime(WithoutZ(o["expires_at"].text)) == Some(expiry)
                                 && env.stamp(expiry) == Some(o["expires_at"].text) && now < expiry)
            && o["ordered_at"].Text? && o["ordered_at"].text != "" && o["resource_id"].Text? && o["resource_id"].text != ""
            && DecodeCursor(env, cursor, scope, now).value == Position(o["ordered_at"].text, o["resource_id"].text)
  {
    AcceptedText(env, cursor, scope, now);
    AcceptedFields(env, Decode(cursor[..Tokens.IndexOf(cursor, '.')]).value, scope, now);
  }

  /** An accepted cursor is the two encodings around its first dot. */
  lemma AcceptedText(env: Env, cursor: string, scope: Scope, now: int)
    requires DecodeCursor(env, cursor, scope, now).Ok?
    ensures var payload := Decode(cursor[..Tokens.IndexOf(cursor, '.')]);
            && payload.Ok? && cursor == Encode(payload.value) + ['.'] + Encode(env.mac(payload.value))
            && DecodeCursor(env, cursor, scope, now) == CheckPayload(env, payload.value, scope, now)
  {
    var dot := Tokens.IndexOf(cursor, '.');
    Tokens.CutAt(cursor, dot);
  }

  lemma AcceptedFields(env: Env, raw: Bytes, scope: Scope, now: int)
    requires CheckPayload(env, raw, scope, now).Ok?
    ensures env.loads(raw).Some? && env.loads(raw).value.JsonObject?
    ensures var o := env.loads(raw).value.members;
            && env.dumps(o) == Some(raw) && o.Keys == REQUIRED && EqualsOne(o["v"])
            && o["organization_id"] == Text(scope.organizationId) && o["resource"] == Text(scope.resource)
            && o["filters"] == TextMap(scope.filters)
            && o["expires_at"].Text? && EndsWithZ(o["expires_at"].text)
            && (exists expiry :: env.parseTime(WithoutZ(o["expires_at"].text)) == Some(expiry)
                                 && env.stamp(expiry) == Some(o["expires_at"].text) && now < expiry)
            && o["ordered_at"].Text? && o["ordered_at"].text != "" && o["resource_id"].Text? && o["resource_id"].text != ""
            && CheckPayload(env, raw, scope, now).value == Position(o["ordered_at"].text, o["resource_id"].text)
  {
  }

  /** A payload the decoder accepts for a scope at a time, by its fields. */
  ghost predicate Acceptable(o: Object, env: Env, scope: Scope, now: int) {
    && o.Keys == {"v", "organization_id", "resource", "filters", "ordered_at", "resource_id", "expires_at"}
    && (o["v"] == Number(1) || o["v"] == Truth(true) || o["v"] == Fraction("1.0"))
    && o["organization_id"] == Text(scope.organizationId) && o["resource"] == Text(scope.resource)
    && o["filters"] == TextMap(scope.filters)
    && (exists expiry :: env.stamp(expiry).Some? && o["expires_at"] == Text(env.stamp(expiry).value) && EndsWithZ(env.stamp(expiry).value)
                         && env.parseTime(WithoutZ(env.stamp(expiry).value)) == Some(expiry) && now < expiry)
    && o["ordered_at"].Text? && o["ordered_at"].text != "" && o["resource_id"].Text? && o["resource_id"].text != ""
  }

  lemma AcceptableIsChecked(env: Env, o: Object, raw: Bytes, scope: Scope, now: int)
    requires Acceptable(o, env, scope, now) && env.loads(raw) == Some(JsonObject(o)) && env.dumps(o) == Some(raw)
    ensures CheckPayload(env, raw, scope, now) == Ok(Position(o["ordered_at"].text, o["resource_id"].text))
  {
    var expiry :| env.stamp(expiry).Some? && o["expires_at"] == Text(env.stamp(expiry).value) && EndsWithZ(env.stamp(expiry).value)
                  && env.parseTime(WithoutZ(env.stamp(expiry).value)) == Some(expiry) && now < expiry;
  }

  /** Conversely, the signed form of every acceptable payload is accepted, with its position. */
  lemma SignedIsAccepted(env: Env, o: Object, raw: Bytes, scope: Scope, now: int)
    requires Acceptable(o, env, scope, now) && env.loads(raw) == Some(JsonObject(o)) && env.dumps(o) == Some(raw)
    requires raw != [] && env.mac(raw) != [] && |Token(env, raw)| <= 4096
    ensures DecodeCursor(env, Token(env, raw), scope, now) == Ok(Position(o["ordered_at"].text, o["resource_id"].text))
  {
    AcceptableIsChecked(env, o, raw, scope, now);
    TokenSplits(env, raw, scope, now);
  }

  /** A payload under any other signature is refused, whatever it says and whoever asks. */
  lemma ForgeryIsRefused(env: Env, raw: Bytes, signature: Bytes, scope: Scope, now: int)
    requires raw != [] && signature != [] && signature != env.mac(raw)
    requires |Encode(raw) + "." + Encode(signature)| <= 4096
    ensures DecodeCursor(env, Encode(raw) + "." + Encode(signature), scope, now) == Err(SignatureInvalid)
  {
    var head, tail := Encode(raw), Encode(signature);
    var cursor := head + ['.'] + tail;
    assert cursor == head + "." + tail;
    NoDotInside(raw);
    Tokens.IndexOfConcat(head, '.', tail);
    EncodedDigits(raw);
    EncodedDigits(signature);
    assert cursor[..|head|] == head && cursor[|head| + 1..] == tail;
    DecodeEncode(raw);
    DecodeEncode(signature);
  }

  /** Two different accepted cursor texts carry different payloads. */
  lemma AcceptedDiffer(env: Env, c: string, d: string, scope: Scope, other: Scope, now: int, later: int)
    requires DecodeCursor(env, c, scope, now).Ok? && DecodeCursor(env, d, other, later).Ok? && c != d
    ensures AcceptedPayload(env, c) != AcceptedPayload(env, d)
  {
    AcceptedIsCanonical(env, c, scope, now);
    AcceptedIsCanonical(env, d, other, later);
  }

  /** A cursor is accepted in one scope at most. */
  lemma OneScopePerCursor(env: Env, cursor: string, scope: Scope, other: Scope, now: int, later: int)
    requires DecodeCursor(env, cursor, scope, now).Ok? && DecodeCursor(env, cursor, other, later).Ok?
    ensures scope == other && DecodeCursor(env, cursor, scope, now) == DecodeCursor(env, cursor, other, later)
  {
    AcceptedIsCanonical(env, cursor, scope, now);
    AcceptedIsCanonical(env, cursor, other, later);
  }
}
