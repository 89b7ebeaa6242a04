/** The decision logic of `signJwt`, `verifyJwt` and `createExpiry`: compact tokens
    `header.payload.signature` (section 7.1 of RFC 7515) signed with HMAC-SHA-2 (section 3.2 of
    RFC 7518).  JSON, base64url and HMAC are parameters (a `Codec`), and so is the clock: `now`
    is `Date.now()` in milliseconds, and `exp`/`iat` are milliseconds too, not the seconds of
    section 2 of RFC 7519. */
module Jwt {
  import opened JsValues
  import opened JsStrings

  // ---------------------------------------------------------------- library calls as parameters

  /** The library calls the code makes, as functions the caller supplies.
      - `stringify(o)`: `JSON.stringify` of an object;
      - `parse(t)`: `JSON.parse(t)`, `None` when it throws;
      - `encode(t)`: `Buffer.from(t, "utf8").toString("base64url")`;
      - `decode(t)`: `atob` of the standard base64 form of `t`, `None` when it throws;
      - `hmac(hash, secret, data)`: `createHmac(hash, secret).update(data).digest("base64url")`. */
  datatype Codec = Codec(
    stringify: map<string, Value> -> string,
    parse: string -> Option<Value>,
    encode: string -> string,
    decode: string -> Option<string>,
    hmac: (string, string, string) -> string)

  /** A character of the base64url alphabet (section 5 of RFC 4648, without padding). */
  predicate IsBase64UrlChar(c: char) {
    IsAsciiLetter(c) || IsDigit(c) || c == '-' || c == '_'
  }

  /** An object whose every property is a string or a number, as claims are. */
  predicate IsFlatRecord(m: map<string, Value>) {
    forall k | k in m :: m[k].Str? || m[k].Num?
  }

  /** An object whose keys and string values are ASCII. */
  predicate IsAsciiRecord(m: map<string, Value>) {
    forall k | k in m :: IsAscii(k) && (m[k].Str? ==> IsAscii(m[k].s))
  }

  /** What the code relies on from the library: JSON reads back a flat object it wrote, and writes
      ASCII for ASCII input; base64url output and HMAC digests use the base64url alphabet; and
      decoding reads back what was encoded, for ASCII text (`atob` yields Latin-1, so other text
      does not come back). */
  ghost predicate Lawful(c: Codec) {
    && (forall m | IsFlatRecord(m) :: c.parse(c.stringify(m)) == Some(Obj(m)))
    && (forall m | IsFlatRecord(m) && IsAsciiRecord(m) :: IsAscii(c.stringify(m)))
    && (forall t | IsAscii(t) :: c.decode(c.encode(t)) == Some(t))
    && (forall t :: AllChars(c.encode(t), IsBase64UrlChar))
    && (forall h, k, d :: AllChars(c.hmac(h, k, d), IsBase64UrlChar))
  }

  // ---------------------------------------------------------------- constants

  /** `AcceptedSigningAlgo` */
  const AcceptedSigningAlgo: set<Value> := {Str("HS256"), Str("HS384"), Str("HS512")}

  /** `algoMap`: the hash each accepted algorithm signs with. */
  function HashName(alg: Value): string
    requires alg in AcceptedSigningAlgo
  {
    match alg.s
    case "HS256" => "sha256"
    case "HS384" => "sha384"
    case _ => "sha512"
  }

  /** `RequiredClaimProps`, in order. */
  const RequiredClaimProps: seq<string> := ["iat", "exp", "aud", "sub", "iss"]

  /** `Time_Multiplier[unit]`, in milliseconds; `None` is `undefined`. */
  function TimeMultiplier(unit: string): Option<int> {
    match unit
    case "s" => Some(1000)
    case "m" => Some(60 * 1000)
    case "h" => Some(60 * 60 * 1000)
    case "d" => Some(24 * 60 * 60 * 1000)
    case "y" => Some(365 * 24 * 60 * 60 * 1000)
    case _ => None
  }

  // ---------------------------------------------------------------- JavaScript operations used

  /** `` `${v}` `` for the values a parsed header can hold. */
  function TemplateString(v: Value): string {
    match v
    case Undefined => "undefined"
    case Null => "null"
    case Bool(b) => if b then "true" else "false"
    case Num(n) => IntToString(n)
    case Str(s) => s
    case Obj(_) => "[object Object]"
  }

  /** `v.key` for a parsed value: reading a property of `null` throws, a primitive has none of
      the names read here, and an object has its own. */
  function ReadProperty(v: Value, key: string): Completion<Value> {
    match v
    case Null => Throw(TypeError)
    case Undefined => Throw(TypeError)
    case Obj(fields) => Normal(Get(fields, key))
    case _ => Normal(Undefined)
  }

  /** `now > v`: the value is converted to a number, and a comparison with NaN is false. */
  predicate IsAfter(now: int, v: Value) {
    match v
    case Undefined => false
    case Null => now > 0
    case Bool(b) => now > (if b then 1 else 0)
    case Num(n) => now > n
    case Str(s) => StringToNumber(s).Some? && now > StringToNumber(s).value
    case Obj(_) => false
  }

  /** The largest magnitude a `Date` holds, in milliseconds. */
  const MaxTime := 8_640_000_000_000_000

  /** `new Date(t).getTime()`: `t` itself, or NaN (`None`) beyond the range of a `Date`. */
  function TimeClip(t: int): Option<int> {
    if -MaxTime <= t <= MaxTime then Some(t) else None
  }

  // ---------------------------------------------------------------- createExpiry

  /** `createExpiry(expiry)` when the clock reads `now`: the leading integer of `expiry` times
      the multiplier of its last character, added to `now`.  `None` is NaN. */
  function CreateExpiry(expiry: string, now: int): Option<int> {
    var time := ParseInt(expiry);
    var unit := if expiry == [] then "" else [expiry[|expiry| - 1]];
    var multiplier := TimeMultiplier(unit);
    if time.None? || multiplier.None? then None
    else TimeClip(now + time.value * multiplier.value)
  }

  /** A duration written as a count and a unit letter lies that many units after `now`. */
  lemma CreateExpiryOfDuration(n: nat, unit: char, now: int)
    requires unit in "smhdy"
    ensures TimeMultiplier([unit]).Some?
    ensures CreateExpiry(NatToString(n) + [unit], now) == TimeClip(now + n * TimeMultiplier([unit]).value)
  {
    var e := NatToString(n) + [unit];
    ParseIntOfNatToString(n, [unit]);
    assert e[|e| - 1] == unit;
    UnitHasMultiplier(unit);
  }

  lemma UnitHasMultiplier(unit: char)
    requires unit in "smhdy"
    ensures TimeMultiplier([unit]).Some?
  {
    assert unit == 's' || unit == 'm' || unit == 'h' || unit == 'd' || unit == 'y';
  }

  /** The multipliers in milliseconds: a second, a minute, an hour, a day, a year of 365 days. */
  lemma TimeMultiplierValues()
    ensures TimeMultiplier("s") == Some(1000) && TimeMultiplier("m") == Some(60000)
    ensures TimeMultiplier("h") == Some(3600000) && TimeMultiplier("d") == Some(86400000)
    ensures TimeMultiplier("y") == Some(31536000000)
  {
  }

  /** Any other last character, or no number in front, makes the expiry NaN. */
  lemma CreateExpiryUnknownUnit(expiry: string, now: int)
    requires expiry == [] || expiry[|expiry| - 1] !in "smhdy" || ParseInt(expiry).None?
    ensures CreateExpiry(expiry, now) == None
  {
  }

  /** "1h" is an hour after `now`. */
  lemma CreateExpiryOneHour(now: int)
    requires -MaxTime <= now + 3600000 <= MaxTime
    ensures CreateExpiry("1h", now) == Some(now + 3600000)
  {
    CreateExpiryOfDuration(1, 'h', now);
    assert NatToString(1) + ['h'] == "1h";
  }

  // ---------------------------------------------------------------- signJwt

  /** `RequiredClaimProps.findIndex(prop => !(prop in claims))`, from position `from` on. */
  function MissingClaimIndex(claims: map<string, Value>, from: nat): (i: int)
    requires from <= |RequiredClaimProps|
    ensures i == -1 || from <= i < |RequiredClaimProps|
    ensures i >= 0 ==> (RequiredClaimProps[i] !in claims
      && forall j | from <= j < i :: RequiredClaimProps[j] in claims)
    ensures i == -1 <==> forall j | from <= j < |RequiredClaimProps| :: RequiredClaimProps[j] in claims
    decreases |RequiredClaimProps| - from
  {
    if from == |RequiredClaimProps| then -1
    else if RequiredClaimProps[from] !in claims then from
    else MissingClaimIndex(claims, from + 1)
  }

  /** The message of an unsupported algorithm in `signJwt`. */
  function SignAlgMessage(alg: Value): string {
    "Bad Header: Unsupported signing algorithm \"" + TemplateString(alg) + "\""
  }

  /** The message of a missing claim (the closing quote is missing in the code as well). */
  function MissingClaimMessage(prop: string): string {
    "Invalid Claim: The claim object is missing the required property '" + prop
  }

  /** The header object `{ alg, typ: "JWT" }`. */
  function Header(alg: Value): map<string, Value> {
    map["alg" := alg, "typ" := Str("JWT")]
  }

  /** `header.payload`, the text that is signed. */
  function SigningInput(header: string, payload: string): string {
    header + "." + payload
  }

  /** The behaviour `signJwt(claims, customClaims, secret, { alg })` (the default `alg` is
      "HS256") is evidently meant to have, and which its tests expect: an unsupported algorithm is
      refused first, then a claims object missing a required claim with a `BadJwtClaim`;
      otherwise the token is the encoded header, the encoded claims overridden by the custom
      claims, and the HMAC of the two.  The code as written differs on the missing-claim branch
      only, where it raises a `TypeError`; that is `SignJwtAsWritten`. */
  function SignJwt(c: Codec, claims: map<string, Value>, custom: map<string, Value>, secret: string, alg: Value): (r: Completion<string>)
    ensures r.Throw? && r.exception.BadJwtHeader? <==> alg !in AcceptedSigningAlgo
    ensures r.Throw? && r.exception.BadJwtClaim? <==>
      alg in AcceptedSigningAlgo && exists j | 0 <= j < |RequiredClaimProps| :: RequiredClaimProps[j] !in claims
    ensures r.Throw? ==> r.exception.BadJwtHeader? || r.exception.BadJwtClaim?
  {
    if alg !in AcceptedSigningAlgo then Throw(BadJwtHeader(SignAlgMessage(alg)))
    else
      var header := c.encode(c.stringify(Header(alg)));
      var missing := MissingClaimIndex(claims, 0);
      if missing >= 0 then Throw(BadJwtClaim(MissingClaimMessage(RequiredClaimProps[missing])))
      else
        var payload := c.encode(c.stringify(claims + custom));
        var input := SigningInput(header, payload);
        Normal(input + "." + c.hmac(HashName(alg), secret, input))
  }

  /** The error of a missing claim names the first required claim, in the order iat, exp, aud,
      sub, iss, that the claims object lacks. */
  lemma MissingClaimIsFirst(c: Codec, claims: map<string, Value>, custom: map<string, Value>, secret: string, alg: Value, i: nat)
    requires alg in AcceptedSigningAlgo
    requires i < |RequiredClaimProps| && RequiredClaimProps[i] !in claims
    requires forall j | 0 <= j < i :: RequiredClaimProps[j] in claims
    ensures SignJwt(c, claims, custom, secret, alg) == Throw(BadJwtClaim(MissingClaimMessage(RequiredClaimProps[i])))
  {
    var m := MissingClaimIndex(claims, 0);
  }

  /** Without an `exp` claim (and with the others) signing fails with the message naming `exp`. */
  lemma MissingExpNamed(c: Codec, claims: map<string, Value>, custom: map<string, Value>, secret: string)
    requires "iat" in claims && "exp" !in claims
    ensures SignJwt(c, claims, custom, secret, Str("HS256"))
      == Throw(BadJwtClaim("Invalid Claim: The claim object is missing the required property 'exp"))
  {
    MissingClaimIsFirst(c, claims, custom, secret, Str("HS256"), 1);
  }

  /** An unsupported algorithm is refused before the claims are looked at, whatever they are. */
  lemma BadAlgorithmBeforeClaims(c: Codec, claims: map<string, Value>, custom: map<string, Value>, secret: string)
    ensures SignJwt(c, claims, custom, secret, Str("RS256"))
      == Throw(BadJwtHeader("Bad Header: Unsupported signing algorithm \"RS256\""))
  {
  }

  // ---------------------------------------------------------------- the code as written

  /** `signJwt` as the code is written: the missing-claim branch runs `new BadJwtClaimObj(...)`,
      a name the errors module does not export, so the binding is `undefined` and `new` throws a
      `TypeError` instead of the intended `BadJwtClaim`. */
  function SignJwtAsWritten(c: Codec, claims: map<string, Value>, custom: map<string, Value>, secret: string, alg: Value): (r: Completion<string>)
    ensures r != SignJwt(c, claims, custom, secret, alg) <==>
      alg in AcceptedSigningAlgo && MissingClaimIndex(claims, 0) >= 0
  {
    if alg !in AcceptedSigningAlgo then Throw(BadJwtHeader(SignAlgMessage(alg)))
    else
      var header := c.encode(c.stringify(Header(alg)));
      var missing := MissingClaimIndex(claims, 0);
      if missing >= 0 then Throw(TypeError)
      else
        var payload := c.encode(c.stringify(claims + custom));
        var input := SigningInput(header, payload);
        Normal(input + "." + c.hmac(HashName(alg), secret, input))
  }

  /** The claims of the test of a missing `exp`: as written, signing throws a `TypeError`, not the
      `BadJwtClaim` the test expects. */
  lemma MissingExpAsWritten(c: Codec, custom: map<string, Value>, secret: string)
    ensures var claims := map["aud" := Str("http://localhost:4000"), "iat" := Num(0),
                              "iss" := Str("server-x"), "sub" := Str("user123")];
      SignJwtAsWritten(c, claims, custom, secret, Str("HS256")) == Throw(TypeError)
      && SignJwt(c, claims, custom, secret, Str("HS256")).exception.BadJwtClaim?
  {
    var claims := map["aud" := Str("http://localhost:4000"), "iat" := Num(0),
                      "iss" := Str("server-x"), "sub" := Str("user123")];
    MissingExpNamed(c, claims, custom, secret);
  }

  // ---------------------------------------------------------------- isValidJwt

  const StructureMessage := "Invalid JWT: JWT must have exactly 3 parts (header, payload, and signature)."

  /** `isValidJwt(jwt)`: the trimmed token split at dots, which must give exactly three parts. */
  function SplitToken(jwt: string): (r: Completion<seq<string>>)
    ensures r.Normal? <==> |Split(Trim(jwt), '.')| == 3
    ensures r.Normal? ==> (|r.value| == 3
      && r.value[0] + "." + r.value[1] + "." + r.value[2] == Trim(jwt)
      && forall k, i | 0 <= k < 3 && 0 <= i < |r.value[k]| :: r.value[k][i] != '.')
    ensures r.Throw? ==> r.exception == InvalidJwt(StructureMessage)
  {
    var parts := Split(Trim(jwt), '.');
    JoinSplit(Trim(jwt), '.');
    if |parts| != 3 then Throw(InvalidJwt(StructureMessage))
    else
      assert parts[1..][1..] == [parts[2]];
      assert Join(parts[1..], ".") == parts[1] + "." + parts[2];
      assert Join(parts, ".") == parts[0] + "." + (parts[1] + "." + parts[2]);
      Normal(parts)
  }

  /** Three parts without dots, joined with dots, split back into themselves. */
  lemma SplitThreeParts(h: string, p: string, s: string)
    requires forall i | 0 <= i < |h| :: h[i] != '.'
    requires forall i | 0 <= i < |p| :: p[i] != '.'
    requires forall i | 0 <= i < |s| :: s[i] != '.'
    ensures Split(h + "." + p + "." + s, '.') == [h, p, s]
  {
    SplitWithoutSeparator(s, '.');
    SplitAfterPart(p, s, '.');
    assert h + "." + p + "." + s == h + ['.'] + (p + ['.'] + s);
    SplitAfterPart(h, p + ['.'] + s, '.');
  }

  // ---------------------------------------------------------------- verifyJwt

  const DecodeMessage := "Base64 decoding failed: Invalid Base64 URL string."
  const ExpiredMessage := "Expired JWT: Token has expired."
  const SignatureMessage := "Invalid JWT: Signature verification failed"

  function ParseMessage(segment: string): string {
    "Invalid JWT " + segment + ": Failed to parse the " + segment
      + ". This usually occurs if the " + segment
      + " is not a valid JSON object or is improperly Base64 encoded. Ensure that the " + segment
      + " is correctly Base64 URL encoded and contains valid JSON."
  }

  function VerifyAlgMessage(alg: Value): string {
    "Invalid JWT Header: Unsupported signing algorithm \"" + TemplateString(alg) + "\""
  }

  /** `parseJwtSegment(b64UrlToUtf8(part), segment)`: decode, then parse. */
  function DecodeSegment(c: Codec, part: string, segment: string): Completion<Value> {
    match c.decode(part)
    case None => Throw(InvalidJwt(DecodeMessage))
    case Some(text) =>
      match c.parse(text)
      case None => Throw(InvalidJwt(ParseMessage(segment)))
      case Some(v) => Normal(v)
  }

  /** `verifyJwt(jwt, secret)` when the clock reads `now`. */
  function VerifyJwt(c: Codec, jwt: string, secret: string, now: int): Completion<Value> {
    match SplitToken(jwt)
    case Throw(e) => Throw(e)
    case Normal(parts) =>
      match DecodeSegment(c, parts[0], "Header")
      case Throw(e) => Throw(e)
      case Normal(header) =>
        match ReadProperty(header, "alg")
        case Throw(e) => Throw(e)
        case Normal(alg) =>
          if alg !in AcceptedSigningAlgo then Throw(BadJwtHeader(VerifyAlgMessage(alg)))
          else
            match DecodeSegment(c, parts[1], "Payload")
            case Throw(e) => Throw(e)
            case Normal(payload) =>
              match ReadProperty(payload, "exp")
              case Throw(e) => Throw(e)
              case Normal(exp) =>
                if IsAfter(now, exp) then Throw(ExpiredJwt(ExpiredMessage))
                else if c.hmac(HashName(alg), secret, SigningInput(parts[0], parts[1])) != parts[2] then
                  Throw(DirtyJwtSignature(SignatureMessage))
                else Normal(payload)
  }

  // ---------------------------------------------------------------- order of the checks

  /** What the header and payload segments of a token decode to, when both read as objects with
      an accepted algorithm. */
  ghost predicate ReadableSegments(c: Codec, h: string, p: string, header: map<string, Value>, payload: map<string, Value>) {
    && DecodeSegment(c, h, "Header") == Normal(Obj(header))
    && Get(header, "alg") in AcceptedSigningAlgo
    && DecodeSegment(c, p, "Payload") == Normal(Obj(payload))
  }

  /** A three-part token with readable segments: verification fails on expiry first, then on the
      signature, and otherwise returns the payload.  The expected signature depends only on the
      header segment, the payload segment and the secret. */
  lemma VerifyReadableToken(c: Codec, h: string, p: string, s: string, secret: string, now: int,
                            header: map<string, Value>, payload: map<string, Value>)
    requires forall i | 0 <= i < |h| :: h[i] != '.'
    requires forall i | 0 <= i < |p| :: p[i] != '.'
    requires forall i | 0 <= i < |s| :: s[i] != '.'
    requires Trim(h + "." + p + "." + s) == h + "." + p + "." + s
    requires ReadableSegments(c, h, p, header, payload)
    ensures VerifyJwt(c, h + "." + p + "." + s, secret, now) ==
      if IsAfter(now, Get(payload, "exp")) then Throw(ExpiredJwt(ExpiredMessage))
      else if c.hmac(HashName(Get(header, "alg")), secret, SigningInput(h, p)) != s then
        Throw(DirtyJwtSignature(SignatureMessage))
      else Normal(Obj(payload))
  {
    SplitThreeParts(h, p, s);
  }

  /** A three-part token whose header segment does not decode or does not parse is refused with
      that `InvalidJwt`, whatever its payload and signature.  The test's "invalid.jwt.token" is of
      this kind: its parts have no dots, and its first part is not base64url of JSON text. */
  lemma UnreadableHeader(c: Codec, h: string, p: string, s: string, secret: string, now: int)
    requires forall i | 0 <= i < |h| :: h[i] != '.'
    requires forall i | 0 <= i < |p| :: p[i] != '.'
    requires forall i | 0 <= i < |s| :: s[i] != '.'
    requires Trim(h + "." + p + "." + s) == h + "." + p + "." + s
    requires DecodeSegment(c, h, "Header").Throw?
    ensures VerifyJwt(c, h + "." + p + "." + s, secret, now) == DecodeSegment(c, h, "Header")
    ensures VerifyJwt(c, h + "." + p + "." + s, secret, now).exception.InvalidJwt?
  {
    SplitThreeParts(h, p, s);
  }

  /** A token that fails its structure check: anything but three parts is `InvalidJwt`, before
      anything is decoded. */
  lemma WrongPartCountFirst(c: Codec, jwt: string, secret: string, now: int)
    requires |Split(Trim(jwt), '.')| != 3
    ensures VerifyJwt(c, jwt, secret, now) == Throw(InvalidJwt(StructureMessage))
  {
  }

  /** An unsupported algorithm in the header is refused before the payload is decoded. */
  lemma HeaderAlgBeforePayload(c: Codec, jwt: string, secret: string, now: int, header: map<string, Value>)
    requires SplitToken(jwt).Normal?
    requires DecodeSegment(c, SplitToken(jwt).value[0], "Header") == Normal(Obj(header))
    requires Get(header, "alg") !in AcceptedSigningAlgo
    ensures VerifyJwt(c, jwt, secret, now) == Throw(BadJwtHeader(VerifyAlgMessage(Get(header, "alg"))))
  {
  }

  // ---------------------------------------------------------------- tokens from signJwt

  /** Every character of a token `signJwt` makes is of the base64url alphabet or a dot, so
      `trim` leaves it as it is. */
  lemma TrimLeavesToken(t: string)
    requires forall i | 0 <= i < |t| :: IsBase64UrlChar(t[i]) || t[i] == '.'
    ensures Trim(t) == t
  {
    TrimShape(t);
  }

  /** A base64url string has no dot. */
  lemma Base64UrlHasNoDot(t: string)
    requires AllChars(t, IsBase64UrlChar)
    ensures forall i | 0 <= i < |t| :: t[i] != '.'
  {
  }

  /** The claims as the token carries them. */
  function Payload(claims: map<string, Value>, custom: map<string, Value>): (m: map<string, Value>)
    ensures m.Keys == claims.Keys + custom.Keys
    ensures forall k | k in custom :: m[k] == custom[k]
    ensures forall k | k in claims && k !in custom :: m[k] == claims[k]
  {
    claims + custom
  }

  /** The conditions under which a token `signJwt` makes verifies: a lawful codec, an accepted
      algorithm, every required claim present, and flat ASCII claims and custom claims. */
  ghost predicate Signable(c: Codec, claims: map<string, Value>, custom: map<string, Value>, alg: Value) {
    && Lawful(c)
    && alg in AcceptedSigningAlgo
    && (forall j | 0 <= j < |RequiredClaimProps| :: RequiredClaimProps[j] in claims)
    && IsFlatRecord(claims) && IsFlatRecord(custom)
    && IsAsciiRecord(claims) && IsAsciiRecord(custom)
  }

  /** The three segments of a signed token. */
  lemma SignedSegments(c: Codec, claims: map<string, Value>, custom: map<string, Value>, secret: string, alg: Value)
    requires Signable(c, claims, custom, alg)
    ensures var h := c.encode(c.stringify(Header(alg)));
      var p := c.encode(c.stringify(Payload(claims, custom)));
      var s := c.hmac(HashName(alg), secret, SigningInput(h, p));
      && SignJwt(c, claims, custom, secret, alg) == Normal(h + "." + p + "." + s)
      && ReadableSegments(c, h, p, Header(alg), Payload(claims, custom))
      && AllChars(h, IsBase64UrlChar) && AllChars(p, IsBase64UrlChar) && AllChars(s, IsBase64UrlChar)
  {
    assert MissingClaimIndex(claims, 0) == -1;
    HeaderReadable(c, alg);
    PayloadReadable(c, claims, custom);
  }

  /** The header segment decodes to the header, with the algorithm signed with. */
  lemma HeaderReadable(c: Codec, alg: Value)
    requires Lawful(c) && alg in AcceptedSigningAlgo
    ensures DecodeSegment(c, c.encode(c.stringify(Header(alg))), "Header") == Normal(Obj(Header(alg)))
    ensures Get(Header(alg), "alg") == alg
    ensures AllChars(c.encode(c.stringify(Header(alg))), IsBase64UrlChar)
  {
    var m := Header(alg);
    assert IsAscii(alg.s);
    assert IsFlatRecord(m) && IsAsciiRecord(m) by {
      forall k | k in m ensures (m[k].Str? || m[k].Num?) && IsAscii(k) && (m[k].Str? ==> IsAscii(m[k].s)) {
        assert k == "alg" || k == "typ";
      }
    }
  }

  /** The payload segment decodes to the claims overridden by the custom claims. */
  lemma PayloadReadable(c: Codec, claims: map<string, Value>, custom: map<string, Value>)
    requires Lawful(c)
    requires IsFlatRecord(claims) && IsFlatRecord(custom) && IsAsciiRecord(claims) && IsAsciiRecord(custom)
    ensures DecodeSegment(c, c.encode(c.stringify(Payload(claims, custom))), "Payload") == Normal(Obj(Payload(claims, custom)))
    ensures AllChars(c.encode(c.stringify(Payload(claims, custom))), IsBase64UrlChar)
  {
    var m := Payload(claims, custom);
    assert IsFlatRecord(m) && IsAsciiRecord(m);
  }

  /** Verifying a token just signed, while it has not expired, gives back the claims overridden
      by the custom claims. */
  lemma SignThenVerify(c: Codec, claims: map<string, Value>, custom: map<string, Value>, secret: string, alg: Value, now: int)
    requires Signable(c, claims, custom, alg)
    requires !IsAfter(now, Get(Payload(claims, custom), "exp"))
    ensures SignJwt(c, claims, custom, secret, alg).Normal?
    ensures VerifyJwt(c, SignJwt(c, claims, custom, secret, alg).value, secret, now) == Normal(Obj(Payload(claims, custom)))
  {
    SignedSegments(c, claims, custom, secret, alg);
    var h := c.encode(c.stringify(Header(alg)));
    var p := c.encode(c.stringify(Payload(claims, custom)));
    var s := c.hmac(HashName(alg), secret, SigningInput(h, p));
    Base64UrlHasNoDot(h);
    Base64UrlHasNoDot(p);
    Base64UrlHasNoDot(s);
    TokenChars(h, p, s);
    VerifyReadableToken(c, h, p, s, secret, now, Header(alg), Payload(claims, custom));
  }

  /** Text appended to a token `h.p.s` of base64url parts is appended to its last part. */
  lemma AppendToSignature(h: string, p: string, s: string, extra: string)
    requires AllChars(s, IsBase64UrlChar) && AllChars(extra, IsBase64UrlChar)
    ensures (h + "." + p + "." + s) + extra == h + "." + p + "." + (s + extra)
    ensures AllChars(s + extra, IsBase64UrlChar)
  {
    var s' := s + extra;
    forall i | 0 <= i < |s'| ensures IsBase64UrlChar(s'[i]) {
      if i >= |s| { assert s'[i] == extra[i - |s|]; }
    }
  }

  /** The characters of `h.p.s` are those of the parts and two dots. */
  lemma TokenChars(h: string, p: string, s: string)
    requires AllChars(h, IsBase64UrlChar) && AllChars(p, IsBase64UrlChar) && AllChars(s, IsBase64UrlChar)
    ensures Trim(h + "." + p + "." + s) == h + "." + p + "." + s
  {
    var t := h + "." + p + "." + s;
    forall i | 0 <= i < |t| ensures IsBase64UrlChar(t[i]) || t[i] == '.' {
      if i < |h| { assert t[i] == h[i]; }
      else if i == |h| { }
      else if i < |h| + 1 + |p| { assert t[i] == p[i - |h| - 1]; }
      else if i == |h| + 1 + |p| { }
      else { assert t[i] == s[i - |h| - 2 - |p|]; }
    }
    TrimLeavesToken(t);
  }

  /** Without custom claims, a token signed with exactly the five required claims verifies to an
      object with exactly those five keys. */
  lemma EmptyCustomClaimsKeepFiveKeys(c: Codec, claims: map<string, Value>, secret: string, alg: Value, now: int)
    requires Signable(c, claims, map[], alg)
    requires claims.Keys == set k | k in RequiredClaimProps
    requires !IsAfter(now, Get(claims, "exp"))
    ensures SignJwt(c, claims, map[], secret, alg).Normal?
    ensures var r := VerifyJwt(c, SignJwt(c, claims, map[], secret, alg).value, secret, now);
      r == Normal(Obj(claims)) && |r.value.fields.Keys| == 5
  {
    assert Payload(claims, map[]) == claims;
    SignThenVerify(c, claims, map[], secret, alg, now);
    RequiredClaimsAreFive();
  }

  /** The required claims are five different names. */
  lemma RequiredClaimsAreFive()
    ensures |set k | k in RequiredClaimProps| == 5
  {
    var names := set k | k in RequiredClaimProps;
    assert names == {"iat", "exp", "aud", "sub", "iss"};
    assert "iat"[1] != "iss"[1];
  }

  /** A token whose `exp` equals the current time has not expired. */
  lemma ExpiryAtNowAccepted(c: Codec, claims: map<string, Value>, custom: map<string, Value>, secret: string, alg: Value, now: int)
    requires Signable(c, claims, custom, alg)
    requires Get(Payload(claims, custom), "exp") == Num(now)
    ensures VerifyJwt(c, SignJwt(c, claims, custom, secret, alg).value, secret, now).Normal?
  {
    SignThenVerify(c, claims, custom, secret, alg, now);
  }

  /** Text appended to a signed token lengthens its signature segment: once the token has
      expired, verification reports the expiry, and before that the signature. */
  lemma TamperedSignature(c: Codec, claims: map<string, Value>, custom: map<string, Value>, secret: string, alg: Value, now: int, extra: string)
    requires Signable(c, claims, custom, alg)
    requires extra != [] && AllChars(extra, IsBase64UrlChar)
    ensures SignJwt(c, claims, custom, secret, alg).Normal?
    ensures VerifyJwt(c, SignJwt(c, claims, custom, secret, alg).value + extra, secret, now) ==
      if IsAfter(now, Get(Payload(claims, custom), "exp")) then Throw(ExpiredJwt(ExpiredMessage))
      else Throw(DirtyJwtSignature(SignatureMessage))
  {
    SignedSegments(c, claims, custom, secret, alg);
    var h := c.encode(c.stringify(Header(alg)));
    var p := c.encode(c.stringify(Payload(claims, custom)));
    var s := c.hmac(HashName(alg), secret, SigningInput(h, p));
    var s' := s + extra;
    AppendToSignature(h, p, s, extra);
    Base64UrlHasNoDot(h);
    Base64UrlHasNoDot(p);
    Base64UrlHasNoDot(s');
    TokenChars(h, p, s');
    VerifyReadableToken(c, h, p, s', secret, now, Header(alg), Payload(claims, custom));
    assert |s'| > |s|;
  }
}
