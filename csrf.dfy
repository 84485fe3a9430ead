/** The CSRF tokens of `src/lib/csrf.ts`: `token:timestamp:signature`, where
    `token` is 32 random bytes in hexadecimal, `timestamp` the issuing time
    in milliseconds and `signature` the hexadecimal HMAC-SHA256 (RFC 2104,
    section 2) of `token:timestamp` under the server secret. HMAC is a
    function parameter; the only thing known about it is that its digests
    are 32 bytes long, which the round trip needs. The random bytes and
    the clock are parameters too. */
module Csrf {
  import opened Wrappers
  import Strings
  import JsStrings

  const TOKEN_LENGTH: nat := 32
  const DEFAULT_MAX_AGE_SECONDS: int := 3600
  const DEFAULT_SECRET: string := "default-csrf-secret-change-in-production"

  type Byte = b: int | 0 <= b < 256

  /** A keyed hash: secret and message to digest. */
  type Hmac = (string, string) -> seq<Byte>

  /** SHA-256 digests, and so HMAC-SHA256 outputs, are 32 bytes long. */
  const DIGEST_LENGTH: nat := 32

  ghost predicate DigestsOfLength(hmac: Hmac) {
    forall key, message :: |hmac(key, message)| == DIGEST_LENGTH
  }

  /** `process.env.CSRF_SECRET || default`. */
  function Secret(env: Option<string>): (secret: string)
    ensures secret != ""
    ensures env.Some? && env.value != "" ==> secret == env.value
  {
    if env.Some? && env.value != "" then env.value else DEFAULT_SECRET
  }

  predicate IsLowerHex(c: char) {
    '0' <= c <= '9' || 'a' <= c <= 'f'
  }

  function HexDigit(d: int): (c: char)
    requires 0 <= d < 16
    ensures IsLowerHex(c)
  {
    if d < 10 then ('0' as int + d) as char else ('a' as int + d - 10) as char
  }

  /** `buffer.toString('hex')`: two lower-case hexadecimal digits per byte. */
  function Hex(bytes: seq<Byte>): (r: string)
    ensures |r| == 2 * |bytes|
    ensures forall k :: 0 <= k < |r| ==> IsLowerHex(r[k])
  {
    if bytes == [] then []
    else [HexDigit(bytes[0] / 16), HexDigit(bytes[0] % 16)] + Hex(bytes[1..])
  }

  /** The hexadecimal HMAC of `tokenPart:timestampPart`. */
  function Signature(hmac: Hmac, secret: string, tokenPart: string, timestampPart: string): string {
    Hex(hmac(secret, tokenPart + ":" + timestampPart))
  }

  /** `generateCsrfToken()` with `random` for `randomBytes(32)` and `now`
      for `Date.now()`. */
  function GenerateCsrfToken(random: seq<Byte>, now: nat, hmac: Hmac, secret: string): string {
    var token := Hex(random);
    var timestamp := JsStrings.NatToString(now);
    token + ":" + timestamp + ":" + Signature(hmac, secret, token, timestamp)
  }

  /** The token age check: `(now - timestamp) / 1000 > maxAgeSeconds`, where
      a timestamp that does not parse is `NaN` and every comparison with
      `NaN` is false. */
  predicate Expired(timestamp: Option<int>, maxAgeSeconds: int, now: int) {
    timestamp.Some? && now - timestamp.value > maxAgeSeconds * 1000
  }

  /** The first three ':'-separated parts are all present and non-empty. */
  predicate WellFormed(parts: seq<string>) {
    |parts| >= 3 && parts[0] != "" && parts[1] != "" && parts[2] != ""
  }

  /** The maximum age used: `maxAgeSeconds = 3600` when omitted. */
  function MaxAge(maxAgeSeconds: Option<int>): (m: int)
    ensures maxAgeSeconds.None? ==> m == 3600
    ensures maxAgeSeconds.Some? ==> m == maxAgeSeconds.value
  {
    maxAgeSeconds.GetOr(DEFAULT_MAX_AGE_SECONDS)
  }

  /** `verifyCsrfToken(token, maxAgeSeconds)` at the instant `now`; `None`
      is the omitted argument. Parts after the third are ignored. */
  function VerifyCsrfToken(token: string, maxAgeSeconds: Option<int>, now: int, hmac: Hmac, secret: string): (ok: bool)
    ensures ok ==> WellFormed(Strings.Split(token, ':'))
  {
    var parts := Strings.Split(token, ':');
    if !WellFormed(parts) then false
    else if parts[2] != Signature(hmac, secret, parts[0], parts[1]) then false
    else !Expired(JsStrings.ParseInt(parts[1]), MaxAge(maxAgeSeconds), now)
  }

  /** Omitting the maximum age is passing 3600 seconds. */
  lemma {:induction false} DefaultMaxAge(token: string, now: int, hmac: Hmac, secret: string)
    ensures VerifyCsrfToken(token, None, now, hmac, secret) == VerifyCsrfToken(token, Some(3600), now, hmac, secret)
  {
  }

  /** The three ways a token is refused, and acceptance otherwise. */
  lemma {:induction false} VerifyCases(token: string, maxAgeSeconds: Option<int>, now: int, hmac: Hmac, secret: string)
    ensures var parts := Strings.Split(token, ':');
      !WellFormed(parts) ==> !VerifyCsrfToken(token, maxAgeSeconds, now, hmac, secret)
    ensures var parts := Strings.Split(token, ':');
      WellFormed(parts) && parts[2] != Signature(hmac, secret, parts[0], parts[1]) ==>
        !VerifyCsrfToken(token, maxAgeSeconds, now, hmac, secret)
    ensures var parts := Strings.Split(token, ':');
      WellFormed(parts) && Expired(JsStrings.ParseInt(parts[1]), MaxAge(maxAgeSeconds), now) ==>
        !VerifyCsrfToken(token, maxAgeSeconds, now, hmac, secret)
    ensures var parts := Strings.Split(token, ':');
      WellFormed(parts) && parts[2] == Signature(hmac, secret, parts[0], parts[1])
      && !Expired(JsStrings.ParseInt(parts[1]), MaxAge(maxAgeSeconds), now) ==>
        VerifyCsrfToken(token, maxAgeSeconds, now, hmac, secret)
  {
  }

  /** A generated token splits into the hexadecimal token, the decimal
      timestamp and the signature of those two: none of them contains ':'. */
  lemma {:induction false} GeneratedTokenParts(random: seq<Byte>, now: nat, hmac: Hmac, secret: string)
    ensures var token := Hex(random);
      var timestamp := JsStrings.NatToString(now);
      Strings.Split(GenerateCsrfToken(random, now, hmac, secret), ':')
        == [token, timestamp, Signature(hmac, secret, token, timestamp)]
  {
    var token := Hex(random);
    var timestamp := JsStrings.NatToString(now);
    var signature := Signature(hmac, secret, token, timestamp);
    var parts := [token, timestamp, signature];
    assert ':' !in token by { assert forall k :: 0 <= k < |token| ==> IsLowerHex(token[k]); }
    assert ':' !in timestamp by { assert JsStrings.IsDecimal(timestamp); }
    assert ':' !in signature by { assert forall k :: 0 <= k < |signature| ==> IsLowerHex(signature[k]); }
    Strings.SplitJoin(parts, ':');
    JoinThree(token, timestamp, signature);
  }

  lemma {:induction false} JoinThree(a: string, b: string, c: string)
    ensures Strings.Join([a, b, c], ":") == a + ":" + b + ":" + c
  {
    var parts := [a, b, c];
    assert parts[1..] == [b, c] && [b, c][1..] == [c];
    assert Strings.Join([b, c], ":") == b + ":" + c;
    assert Strings.Join(parts, ":") == a + ":" + (b + ":" + c);
  }

  /** Round trip: a token generated at `issued` from 32 random bytes
      verifies, with the same HMAC and secret, at every instant no more
      than `maxAgeSeconds` later. */
  lemma {:induction false} GenerateThenVerify(random: seq<Byte>, issued: nat, now: int, maxAgeSeconds: Option<int>, hmac: Hmac, secret: string)
    requires |random| == TOKEN_LENGTH && DigestsOfLength(hmac)
    requires 0 <= now - issued <= MaxAge(maxAgeSeconds) * 1000
    ensures VerifyCsrfToken(GenerateCsrfToken(random, issued, hmac, secret), maxAgeSeconds, now, hmac, secret)
  {
    var token := Hex(random);
    var timestamp := JsStrings.NatToString(issued);
    var signature := Signature(hmac, secret, token, timestamp);
    GeneratedTokenParts(random, issued, hmac, secret);
    var parts := Strings.Split(GenerateCsrfToken(random, issued, hmac, secret), ':');
    assert parts == [token, timestamp, signature];
    assert |signature| == 2 * DIGEST_LENGTH;
    assert WellFormed(parts);
    JsStrings.ParseIntNatToString(issued);
    assert !Expired(JsStrings.ParseInt(parts[1]), MaxAge(maxAgeSeconds), now);
  }

  /** A token whose timestamp does not parse as a number never expires:
      with a matching signature it is accepted at every instant. */
  lemma {:induction false} UnparsableTimestampNeverExpires(token: string, maxAgeSeconds: Option<int>, now: int, hmac: Hmac, secret: string)
    requires WellFormed(Strings.Split(token, ':'))
    requires var parts := Strings.Split(token, ':');
      parts[2] == Signature(hmac, secret, parts[0], parts[1]) && JsStrings.ParseInt(parts[1]).None?
    ensures VerifyCsrfToken(token, maxAgeSeconds, now, hmac, secret)
  {
  }

  datatype CsrfCheck = Valid | Invalid(error: string)

  const SAFE_METHODS: seq<string> := ["GET", "HEAD", "OPTIONS"]

  /** `csrfProtection(request)`: `header` is the `x-csrf-token` header and
      `now` the clock; verification uses the default maximum age. */
  function CsrfProtection(httpMethod: string, header: Option<string>, now: int, hmac: Hmac, secret: string): (r: CsrfCheck)
    ensures JsStrings.ToUpper(httpMethod) in SAFE_METHODS ==> r == Valid
    ensures JsStrings.ToUpper(httpMethod) !in SAFE_METHODS && (header.None? || header.value == "") ==>
      r == Invalid("CSRF token missing")
    ensures JsStrings.ToUpper(httpMethod) !in SAFE_METHODS && header.Some? && header.value != "" ==>
      r == if VerifyCsrfToken(header.value, None, now, hmac, secret) then Valid
           else Invalid("Invalid or expired CSRF token")
  {
    var m := JsStrings.ToUpper(httpMethod);
    if m in SAFE_METHODS then Valid
    else if header.None? || header.value == "" then Invalid("CSRF token missing")
    else if !VerifyCsrfToken(header.value, None, now, hmac, secret) then Invalid("Invalid or expired CSRF token")
    else Valid
  }

  /** The safe methods are recognised in any letter case, and then nothing
      about the header, the clock or the key matters. */
  lemma {:induction false} SafeMethodsIgnoreHeader(httpMethod: string, h1: Option<string>, h2: Option<string>,
                                now1: int, now2: int, hmac1: Hmac, hmac2: Hmac, s1: string, s2: string)
    requires httpMethod in ["get", "Get", "head", "Head", "options", "Options"]
    ensures CsrfProtection(httpMethod, h1, now1, hmac1, s1) == CsrfProtection(httpMethod, h2, now2, hmac2, s2) == Valid
  {
    var upper := if |httpMethod| == 3 then "GET" else if |httpMethod| == 4 then "HEAD" else "OPTIONS";
    UpperIs(httpMethod, upper);
    assert upper in SAFE_METHODS;
  }

  lemma {:induction false} UpperIs(s: string, t: string)
    requires |s| == |t| && forall k :: 0 <= k < |s| ==> JsStrings.UpperChar(s[k]) == t[k]
    ensures JsStrings.ToUpper(s) == t
  {
  }

  /** A method that does not upper-case to a safe one needs a token, even
      in lower case. */
  lemma {:induction false} UnsafeMethodsNeedToken(now: int, hmac: Hmac, secret: string)
    ensures CsrfProtection("POST", None, now, hmac, secret) == Invalid("CSRF token missing")
    ensures CsrfProtection("delete", Some(""), now, hmac, secret) == Invalid("CSRF token missing")
  {
    UpperIs("POST", "POST");
    assert "POST" !in SAFE_METHODS by { assert "POST"[0] == 'P'; }
    UpperIs("delete", "DELETE");
    assert "DELETE" !in SAFE_METHODS by { assert "DELETE"[0] == 'D'; }
  }
}
