/**
 The console's session cookie: minted as `issuedAt.nonce.fingerprint.signature`, verified
 against the clock, the configured passcode and the signing key.
 */
module Session {
  import opened Text
  import opened Options
  import opened Numbers

  const SESSION_MAX_AGE: int := 60 * 60 * 24 * 400
  const DOMAIN_SEPARATOR := "brainiac-console:v1:"

  type Byte = b: int | 0 <= b < 256

  /** SHA-256 and HMAC-SHA-256 of UTF-8 text, of which only the digest length matters here. */
  datatype Crypto = Crypto(sha256: string -> seq<Byte>, hmac: (string, string) -> seq<Byte>)
  {
    ghost predicate Lawful() {
      (forall s :: |sha256(s)| == 32) && forall k, s :: |hmac(k, s)| == 32
    }
  }

  /** The two environment variables. */
  datatype Env = Env(passcode: Option<string>, secret: Option<string>)

  predicate IsLowerHex(c: char) {
    '0' <= c <= '9' || 'a' <= c <= 'f'
  }

  /** A random UUID without its dashes. */
  type Nonce = s: string | |s| == 32 && forall k :: 0 <= k < |s| ==> IsLowerHex(s[k])
    witness seq(32, _ => '0')

  function HexChar(d: int): (c: char)
    requires 0 <= d < 16
    ensures IsLowerHex(c)
  {
    if d < 10 then (d + '0' as int) as char else (d - 10 + 'a' as int) as char
  }

  function ToHex(bytes: seq<Byte>): (s: string)
    ensures |s| == 2 * |bytes|
    ensures forall k :: 0 <= k < |s| ==> IsLowerHex(s[k])
  {
    if bytes == [] then "" else [HexChar(bytes[0] / 16), HexChar(bytes[0] % 16)] + ToHex(bytes[1..])
  }

  /** Different bytes print differently. */
  lemma {:induction false} ToHexInjective(a: seq<Byte>, b: seq<Byte>)
    requires ToHex(a) == ToHex(b)
    ensures a == b
  {
    assert |a| == |b|;
    if a == [] {
    } else {
      var x, y := ToHex(a), ToHex(b);
      assert x[0] == y[0] && x[1] == y[1];
      assert a[0] == b[0];
      assert ToHex(a[1..]) == x[2..] && ToHex(b[1..]) == y[2..];
      ToHexInjective(a[1..], b[1..]);
      assert a == [a[0]] + a[1..] && b == [b[0]] + b[1..];
    }
  }

  function NonBlank(v: Option<string>): Option<string> {
    match v
    case None => None
    case Some(s) => if Trim(s) == "" then None else Some(Trim(s))
  }

  function ConfiguredPasscode(env: Env): Option<string> {
    NonBlank(env.passcode)
  }

  function SigningKey(passcode: string, env: Env): string {
    match NonBlank(env.secret)
    case Some(secret) => secret
    case None => passcode
  }

  function Prefix(s: string, n: nat): string {
    if |s| <= n then s else s[..n]
  }

  function Fingerprint(passcode: string, crypto: Crypto): string {
    Prefix(ToHex(crypto.sha256(DOMAIN_SEPARATOR + passcode)), 16)
  }

  function Payload(issuedAt: string, nonce: string, fp: string): string {
    issuedAt + "." + nonce + "." + fp
  }

  function Signature(payload: string, passcode: string, env: Env, crypto: Crypto): string {
    ToHex(crypto.hmac(SigningKey(passcode, env), payload))
  }

  /** A session token issued at a second of the clock. */
  function Token(passcode: string, env: Env, issuedAt: nat, nonce: Nonce, crypto: Crypto): string {
    var payload := Payload(Decimal(issuedAt), nonce, Fingerprint(passcode, crypto));
    payload + "." + Signature(payload, passcode, env, crypto)
  }

  /** Comparison that looks at every character whatever it finds. */
  method SafeEqual(a: string, b: string) returns (equal: bool)
    ensures equal <==> a == b
  {
    if |a| != |b| {
      return false;
    }
    var diff: nat := 0;
    for i := 0 to |a|
      invariant diff == 0 <==> a[..i] == b[..i]
    {
      XorZero(a[i] as int, b[i] as int);
      OrZero(diff, Xor(a[i] as int, b[i] as int));
      diff := Or(diff, Xor(a[i] as int, b[i] as int));
      assert a[..i + 1] == a[..i] + [a[i]] && b[..i + 1] == b[..i] + [b[i]];
    }
    assert a[..|a|] == a && b[..|b|] == b;
    equal := diff == 0;
  }

  /** Whether a cookie authorises at a second of the clock. */
  ghost predicate Accepts(cookie: Option<string>, env: Env, now: int, crypto: Crypto, read: Reader) {
    && cookie.Some?
    && ConfiguredPasscode(env).Some?
    && var passcode := ConfiguredPasscode(env).value;
       var parts := Split(cookie.value, '.');
       && |parts| == 4
       && (forall k :: 0 <= k < 4 ==> parts[k] != "")
       && parts[3] == Signature(Payload(parts[0], parts[1], parts[2]), passcode, env, crypto)
       && read(parts[0]).Finite?
       && -60.0 <= now as real - read(parts[0]).x <= SESSION_MAX_AGE as real
       && parts[2] == Fingerprint(passcode, crypto)
  }

  method IsValidSession(cookie: Option<string>, env: Env, now: int, crypto: Crypto, read: Reader) returns (valid: bool)
    ensures valid <==> Accepts(cookie, env, now, crypto, read)
  {
    hide Split, Signature, Fingerprint, Payload, NonBlank;
    if cookie.None? || cookie.value == "" {
      NoParts();
      return false;
    }
    var passcode := ConfiguredPasscode(env);
    if passcode.None? {
      return false;
    }
    var parts := Split(cookie.value, '.');
    if |parts| != 4 {
      return false;
    }
    if parts[0] == "" || parts[1] == "" || parts[2] == "" || parts[3] == "" {
      return false;
    }
    var payload := Payload(parts[0], parts[1], parts[2]);
    var signed := SafeEqual(parts[3], Signature(payload, passcode.value, env, crypto));
    if !signed {
      return false;
    }
    var issuedAt := read(parts[0]);
    if !issuedAt.Finite? {
      return false;
    }
    var age := now as real - issuedAt.x;
    if age < -60.0 || age > SESSION_MAX_AGE as real {
      return false;
    }
    valid := SafeEqual(parts[2], Fingerprint(passcode.value, crypto));
  }

  lemma NoParts()
    ensures |Split("", '.')| == 1
  {
  }

  // ---- what is printed and configured ----------------------------------------------------

  /** Every byte is two lower-case digits, the high one first. */
  lemma {:induction false} ToHexDigits(bytes: seq<Byte>, k: nat)
    requires k < |bytes|
    ensures ToHex(bytes)[2 * k] == "0123456789abcdef"[bytes[k] / 16]
    ensures ToHex(bytes)[2 * k + 1] == "0123456789abcdef"[bytes[k] % 16]
  {
    if k == 0 {
      HexCharExactly(bytes[0] / 16);
      HexCharExactly(bytes[0] % 16);
    } else {
      hide HexChar;
      ToHexDigits(bytes[1..], k - 1);
      assert ToHex(bytes)[2 * k] == ToHex(bytes[1..])[2 * k - 2];
      assert ToHex(bytes)[2 * k + 1] == ToHex(bytes[1..])[2 * k - 1];
    }
  }

  lemma HexCharExactly(d: int)
    requires 0 <= d < 16
    ensures HexChar(d) == "0123456789abcdef"[d]
  {
  }

  lemma {:induction false} ToHexPrefix(a: seq<Byte>, b: seq<Byte>, n: nat)
    requires n <= |a| && n <= |b|
    ensures ToHex(a)[..2 * n] == ToHex(b)[..2 * n] <==> a[..n] == b[..n]
  {
    ToHexCut(a, n);
    ToHexCut(b, n);
    if ToHex(a)[..2 * n] == ToHex(b)[..2 * n] {
      ToHexInjective(a[..n], b[..n]);
    }
  }

  lemma {:induction false} ToHexCut(a: seq<Byte>, n: nat)
    requires n <= |a|
    ensures ToHex(a)[..2 * n] == ToHex(a[..n])
  {
    if n == 0 {
      assert a[..0] == [] && ToHex(a)[..0] == "";
    } else {
      hide HexChar;
      ToHexCut(a[1..], n - 1);
      assert a[..n][1..] == a[1..][..n - 1] && a[..n][0] == a[0];
      assert ToHex(a)[..2 * n] == ToHex(a)[..2] + ToHex(a[1..])[..2 * n - 2];
    }
  }

  /** What two passcodes must have in common to have one fingerprint: the first eight bytes of their
      digests. */
  ghost predicate SameDigest(p: string, q: string, crypto: Crypto)
    requires crypto.Lawful()
  {
    crypto.sha256("brainiac-console:v1:" + p)[..8] == crypto.sha256("brainiac-console:v1:" + q)[..8]
  }

  lemma FingerprintExactly(p: string, q: string, crypto: Crypto)
    requires crypto.Lawful()
    ensures Fingerprint(p, crypto) == Fingerprint(q, crypto) <==> SameDigest(p, q, crypto)
    ensures Fingerprint(p, crypto) == ToHex(crypto.sha256("brainiac-console:v1:" + p)[..8])
  {
    hide ToHex;
    ToHexPrefix(crypto.sha256("brainiac-console:v1:" + p), crypto.sha256("brainiac-console:v1:" + q), 8);
    ToHexCut(crypto.sha256("brainiac-console:v1:" + p), 8);
  }

  /** A passcode is configured when something is left of it, trimmed. */
  lemma ConfiguredExactly(env: Env, p: string)
    ensures ConfiguredPasscode(env) == Some(p) <==> p != "" && env.passcode.Some? && Trim(env.passcode.value) == p
  {
    hide Trim;
  }

  // ---- what verification gives --------------------------------------------------------

  lemma HexHasNoDot(s: string)
    requires forall k :: 0 <= k < |s| ==> IsLowerHex(s[k])
    ensures '.' !in s
  {
  }

  lemma FingerprintHex(passcode: string, crypto: Crypto)
    requires crypto.Lawful()
    ensures |Fingerprint(passcode, crypto)| == 16 && '.' !in Fingerprint(passcode, crypto)
  {
    hide ToHex;
    HexHasNoDot(Fingerprint(passcode, crypto));
  }

  /** A token falls into its four parts again. */
  lemma TokenParts(passcode: string, env: Env, issuedAt: nat, nonce: Nonce, crypto: Crypto)
    requires crypto.Lawful()
    ensures var payload := Payload(Decimal(issuedAt), nonce, Fingerprint(passcode, crypto));
      Split(Token(passcode, env, issuedAt, nonce, crypto), '.') ==
        [Decimal(issuedAt), nonce, Fingerprint(passcode, crypto), Signature(payload, passcode, env, crypto)]
    ensures Signature(Payload(Decimal(issuedAt), nonce, Fingerprint(passcode, crypto)), passcode, env, crypto) != ""
  {
    hide Split, Fingerprint, ToHex;
    var iat, fp := Decimal(issuedAt), Fingerprint(passcode, crypto);
    var sig := Signature(Payload(iat, nonce, fp), passcode, env, crypto);
    FingerprintHex(passcode, crypto);
    HexHasNoDot(nonce);
    HexHasNoDot(sig);
    assert '.' !in iat;
    SplitPart(iat, '.', nonce + "." + (fp + "." + sig));
    SplitPart(nonce, '.', fp + "." + sig);
    SplitPart(fp, '.', sig);
    SplitPart(sig, '.', "");
    assert Token(passcode, env, issuedAt, nonce, crypto) == iat + "." + (nonce + "." + (fp + "." + sig));
  }

  /** Whatever has changed between minting and verifying, a token is accepted exactly when the new
      passcode has the digest of the old one, as far as it is kept, the new signing key authenticates its payload
      with the same digest as the old key, and its age is within bounds. */
  lemma AcceptedExactly(passcode: string, env: Env, env': Env, issuedAt: nat, now: int, nonce: Nonce,
                        crypto: Crypto, read: Reader)
    requires crypto.Lawful() && ReadsDecimals(read)
    ensures var payload := Payload(Decimal(issuedAt), nonce, Fingerprint(passcode, crypto));
      Accepts(Some(Token(passcode, env, issuedAt, nonce, crypto)), env', now, crypto, read) <==>
        && ConfiguredPasscode(env').Some?
        && SameDigest(ConfiguredPasscode(env').value, passcode, crypto)
        && crypto.hmac(SigningKey(ConfiguredPasscode(env').value, env'), payload) ==
           crypto.hmac(SigningKey(passcode, env), payload)
        && -60 <= now - issuedAt <= 34560000
  {
    hide Split, Fingerprint, Token, ConfiguredPasscode, Decimal, SigningKey, ToHex, SameDigest;
    if ConfiguredPasscode(env').Some? {
      FingerprintExactly(ConfiguredPasscode(env').value, passcode, crypto);
    }
    TokenParts(passcode, env, issuedAt, nonce, crypto);
    FingerprintHex(passcode, crypto);
    assert read(Decimal(issuedAt)) == Finite(issuedAt as real);
    if ConfiguredPasscode(env').Some? {
      var payload := Payload(Decimal(issuedAt), nonce, Fingerprint(passcode, crypto));
      var a := crypto.hmac(SigningKey(ConfiguredPasscode(env').value, env'), payload);
      var b := crypto.hmac(SigningKey(passcode, env), payload);
      if ToHex(a) == ToHex(b) {
        ToHexInjective(a, b);
      }
    }
  }

  /** Two deployments sign a payload alike exactly when their keys give it the same digest, where the
      key is the trimmed secret, whatever the passcode, or without a secret the passcode itself. */
  lemma SecretSigns(payload: string, p: string, q: string, env: Env, env': Env, crypto: Crypto)
    ensures Signature(payload, p, env, crypto) == Signature(payload, q, env', crypto) <==>
      match (NonBlank(env.secret), NonBlank(env'.secret)) {
        case (None, None) => crypto.hmac(p, payload) == crypto.hmac(q, payload)
        case (None, Some(t)) => crypto.hmac(p, payload) == crypto.hmac(t, payload)
        case (Some(s), None) => crypto.hmac(s, payload) == crypto.hmac(q, payload)
        case (Some(s), Some(t)) => crypto.hmac(s, payload) == crypto.hmac(t, payload)
      }
  {
    hide ToHex, NonBlank;
    var a, b := crypto.hmac(SigningKey(p, env), payload), crypto.hmac(SigningKey(q, env'), payload);
    if ToHex(a) == ToHex(b) {
      ToHexInjective(a, b);
    }
  }

  /** A token verifies under the passcode and secret it was minted with exactly while its age is
      between a minute early and 400 days. */
  lemma MintVerify(env: Env, issuedAt: nat, now: int, nonce: Nonce, crypto: Crypto, read: Reader)
    requires crypto.Lawful() && ReadsDecimals(read)
    requires ConfiguredPasscode(env).Some?
    ensures var token := Token(ConfiguredPasscode(env).value, env, issuedAt, nonce, crypto);
      Accepts(Some(token), env, now, crypto, read) <==> -60 <= now - issuedAt <= 34560000
  {
    hide Split, Fingerprint, Signature, Token, NonBlank, Decimal;
    var passcode := ConfiguredPasscode(env).value;
    TokenParts(passcode, env, issuedAt, nonce, crypto);
    FingerprintHex(passcode, crypto);
    assert read(Decimal(issuedAt)) == Finite(issuedAt as real);
  }

  /** Once a token has aged out it is never accepted again. */
  lemma ExpiredStaysExpired(env: Env, issuedAt: nat, now: int, later: int, nonce: Nonce, crypto: Crypto, read: Reader)
    requires crypto.Lawful() && ReadsDecimals(read)
    requires ConfiguredPasscode(env).Some? && issuedAt <= now <= later
    ensures var token := Token(ConfiguredPasscode(env).value, env, issuedAt, nonce, crypto);
      !Accepts(Some(token), env, now, crypto, read) ==> !Accepts(Some(token), env, later, crypto, read)
  {
    hide Accepts, Token, ConfiguredPasscode;
    MintVerify(env, issuedAt, now, nonce, crypto, read);
    MintVerify(env, issuedAt, later, nonce, crypto, read);
  }

  /** A passcode with another digest rejects every token minted before, at any time and under
      any secret. */
  lemma RotationRejects(passcode: string, env: Env, env': Env, issuedAt: nat, now: int, nonce: Nonce,
                        crypto: Crypto, read: Reader)
    requires crypto.Lawful()
    requires ConfiguredPasscode(env').Some? && !SameDigest(ConfiguredPasscode(env').value, passcode, crypto)
    ensures !Accepts(Some(Token(passcode, env, issuedAt, nonce, crypto)), env', now, crypto, read)
  {
    hide Split, Fingerprint, Signature, Token, ConfiguredPasscode, SameDigest;
    FingerprintExactly(ConfiguredPasscode(env').value, passcode, crypto);
    TokenParts(passcode, env, issuedAt, nonce, crypto);
  }

  /** Different nonces give different tokens, whatever else is the same. */
  lemma TokensDiffer(passcode: string, env: Env, a: nat, b: nat, nonce: Nonce, nonce': Nonce, crypto: Crypto)
    requires crypto.Lawful() && nonce != nonce'
    ensures Token(passcode, env, a, nonce, crypto) != Token(passcode, env, b, nonce', crypto)
  {
    hide Split, Fingerprint, Signature, Token;
    TokenParts(passcode, env, a, nonce, crypto);
    TokenParts(passcode, env, b, nonce', crypto);
  }

  /** What a cookie must be made of to be accepted: a number whose age is within bounds, something
      without a dot, the kept digest of the passcode, and the signature of the three. */
  ghost predicate AcceptedShape(cookie: string, env: Env, now: int, crypto: Crypto, read: Reader)
    requires crypto.Lawful()
  {
    && ConfiguredPasscode(env).Some?
    && exists issuedAt: string, nonce: string ::
      var passcode := ConfiguredPasscode(env).value;
      var fp := ToHex(crypto.sha256("brainiac-console:v1:" + passcode)[..8]);
      var payload := issuedAt + "." + nonce + "." + fp;
      && issuedAt != "" && '.' !in issuedAt && nonce != "" && '.' !in nonce
      && read(issuedAt).Finite? && -60.0 <= now as real - read(issuedAt).x <= 34560000.0
      && cookie == payload + "." + ToHex(crypto.hmac(SigningKey(passcode, env), payload))
  }

  lemma AcceptedParts(issuedAt: string, nonce: string, fp: string, sig: string)
    requires '.' !in issuedAt && '.' !in nonce && '.' !in fp && '.' !in sig
    ensures Split(issuedAt + "." + nonce + "." + fp + "." + sig, '.') == [issuedAt, nonce, fp, sig]
  {
    hide Split;
    SplitPart(issuedAt, '.', nonce + "." + (fp + "." + sig));
    SplitPart(nonce, '.', fp + "." + sig);
    SplitPart(fp, '.', sig);
    SplitPart(sig, '.', "");
    assert issuedAt + "." + nonce + "." + fp + "." + sig == issuedAt + "." + (nonce + "." + (fp + "." + sig));
  }

  lemma AcceptedCut(cookie: string, env: Env, now: int, crypto: Crypto, read: Reader)
    requires crypto.Lawful() && Accepts(Some(cookie), env, now, crypto, read)
    ensures AcceptedShape(cookie, env, now, crypto, read)
  {
    hide Split, Fingerprint, ConfiguredPasscode, ToHex, SigningKey;
    JoinSplit(cookie, '.');
    var parts := Split(cookie, '.');
    JoinFour(parts);
    FingerprintExactly(ConfiguredPasscode(env).value, "", crypto);
    assert cookie == Payload(parts[0], parts[1], parts[2]) + "." + parts[3];
  }

  lemma AcceptedFits(cookie: string, env: Env, now: int, crypto: Crypto, read: Reader)
    requires crypto.Lawful() && AcceptedShape(cookie, env, now, crypto, read)
    ensures Accepts(Some(cookie), env, now, crypto, read)
  {
    hide Split, Fingerprint, ConfiguredPasscode, ToHex, SigningKey;
    var passcode := ConfiguredPasscode(env).value;
    var fp := ToHex(crypto.sha256("brainiac-console:v1:" + passcode)[..8]);
    var issuedAt: string, nonce: string :|
      var payload := issuedAt + "." + nonce + "." + fp;
      && issuedAt != "" && '.' !in issuedAt && nonce != "" && '.' !in nonce
      && read(issuedAt).Finite? && -60.0 <= now as real - read(issuedAt).x <= 34560000.0
      && cookie == payload + "." + ToHex(crypto.hmac(SigningKey(passcode, env), payload));
    var payload := issuedAt + "." + nonce + "." + fp;
    var sig := ToHex(crypto.hmac(SigningKey(passcode, env), payload));
    HexHasNoDot(fp);
    HexHasNoDot(sig);
    FingerprintExactly(passcode, "", crypto);
    AcceptedParts(issuedAt, nonce, fp, sig);
  }

  /** Exactly which cookies are accepted. */
  lemma AcceptedForm(cookie: string, env: Env, now: int, crypto: Crypto, read: Reader)
    requires crypto.Lawful()
    ensures Accepts(Some(cookie), env, now, crypto, read) <==> AcceptedShape(cookie, env, now, crypto, read)
    ensures !Accepts(None, env, now, crypto, read)
  {
    hide Accepts, AcceptedShape;
    if Accepts(Some(cookie), env, now, crypto, read) {
      AcceptedCut(cookie, env, now, crypto, read);
    }
    if AcceptedShape(cookie, env, now, crypto, read) {
      AcceptedFits(cookie, env, now, crypto, read);
    }
    NoCookie(env, now, crypto, read);
  }

  lemma NoCookie(env: Env, now: int, crypto: Crypto, read: Reader)
    ensures !Accepts(None, env, now, crypto, read)
  {
  }

  lemma JoinFour(parts: seq<string>)
    requires |parts| == 4
    ensures Join(parts, ".") == parts[0] + "." + parts[1] + "." + parts[2] + "." + parts[3]
  {
    assert Join(parts[3..], ".") == parts[3];
    assert parts[2..][1..] == parts[3..] && parts[1..][1..] == parts[2..];
    assert Join(parts[2..], ".") == parts[2] + "." + parts[3];
    assert Join(parts[1..], ".") == parts[1] + "." + (parts[2] + "." + parts[3]);
  }
}
