/**
 * The license-key scheme of app.py: `LicenseValidator` (clean, pad, decode,
 * split, check email, signature, expiry format, expiry date) and the minter
 * `generate_demo_key`.
 *
 * A key is the base64 text of the UTF-8 bytes of `email|expiry|signature`,
 * where `expiry` is a `%Y%m%d%H%M%S` timestamp and `signature` is the first
 * eight hex digits of the MD5 of `email|expiry` followed by the secret. MD5
 * is not modelled: the hex-digest function is a parameter.
 */
module License {
  import opened Wrappers
  import opened Bytes
  import opened Base64
  import Utf8
  import opened Calendar
  import opened Text

  predicate IsLowerHex(c: char) {
    ('0' <= c <= '9') || ('a' <= c <= 'f')
  }

  /** What `hashlib.md5(...).hexdigest()` returns: 32 lowercase hex digits. */
  type HexDigest = s: string | |s| == 32 && forall i :: 0 <= i < |s| ==> IsLowerHex(s[i])
    witness "00000000000000000000000000000000"

  /** The secret the keys are signed with and the deployment name the validator reports. */
  datatype Config = Config(secret: string, environment: string)

  /** Cleaned keys shorter than this are rejected before decoding. */
  const MinKeyLength: int := 20

  const DemoEmail: string := "demo@klink.com"

  /** How long a demo key is valid: `timedelta(days=365)`. */
  const DemoValidity: int := 365 * MicrosPerDay

  /** Why a key was rejected; each has its own message. */
  datatype Rejection =
    | InvalidKey            // cleaned key empty or shorter than 20
    | InvalidFormat         // not base64 / UTF-8, or not three `|`-fields
    | InvalidEmail          // email field lacks `@` or `.`
    | ValidationFailed      // signature mismatch
    | InvalidExpiryFormat   // expiry field not 14 characters long
    | InvalidExpiryDate     // expiry field not a date-time `strptime` accepts
    | Expired(expiry: DateTime)

  /** The identity an accepted key yields. */
  datatype LicenseInfo = LicenseInfo(
    email: string,
    expiry: DateTime,
    daysLeft: int,
    licenseKey: string,  // the cleaned and padded key
    environment: string)

  // ----- step 1: cleaning -----

  /** The characters of `\s` in a Python `str` pattern (those for which `str.isspace()` holds). */
  predicate IsWhitespace(c: char) {
    var n := c as int;
    (0x09 <= n <= 0x0D) || (0x1C <= n <= 0x20) || n == 0x85 || n == 0xA0 || n == 0x1680
    || (0x2000 <= n <= 0x200A) || n == 0x2028 || n == 0x2029 || n == 0x202F || n == 0x205F || n == 0x3000
  }

  /** The characters the cleaner keeps: `[A-Za-z0-9+/=]`. */
  predicate IsKeyChar(c: char) {
    IsDataChar(c) || c == '='
  }

  /** `re.sub(r'\s+', '', s)`. */
  function RemoveWhitespace(s: string): (r: string)
    ensures forall i :: 0 <= i < |r| ==> !IsWhitespace(r[i])
    ensures forall i :: 0 <= i < |s| && !IsWhitespace(s[i]) ==> s[i] in r
  {
    if s == "" then ""
    else if IsWhitespace(s[0]) then RemoveWhitespace(s[1..])
    else [s[0]] + RemoveWhitespace(s[1..])
  }

  /** `re.sub(r'[^A-Za-z0-9+/=]', '', s)`. */
  function KeepKeyChars(s: string): (r: string)
    ensures |r| <= |s|
    ensures forall i :: 0 <= i < |r| ==> IsKeyChar(r[i])
    ensures forall i :: 0 <= i < |s| && IsKeyChar(s[i]) ==> s[i] in r
  {
    if s == "" then ""
    else if IsKeyChar(s[0]) then [s[0]] + KeepKeyChars(s[1..])
    else KeepKeyChars(s[1..])
  }

  /** `LicenseValidator._clean_key`: `None` and `""` give `""`. */
  function CleanKey(key: Option<string>): (r: string)
    ensures forall i :: 0 <= i < |r| ==> IsKeyChar(r[i])
    ensures key == None || key == Some("") ==> r == ""
  {
    match key
    case None => ""
    case Some(k) => if k == "" then "" else KeepKeyChars(RemoveWhitespace(k))
  }

  /**
   * The whitespace filter works character by character: filtering a
   * concatenation concatenates the filtered parts, so every kept character
   * stays in place, in order and as often as it occurs.
   */
  lemma {:induction false} RemoveWhitespaceConcat(a: string, b: string)
    ensures RemoveWhitespace(a + b) == RemoveWhitespace(a) + RemoveWhitespace(b)
    ensures RemoveWhitespace([]) == [] && forall c :: RemoveWhitespace([c]) == if IsWhitespace(c) then [] else [c]
  {
    if a == "" {
      assert a + b == b;
    } else {
      assert (a + b)[1..] == a[1..] + b;
      RemoveWhitespaceConcat(a[1..], b);
    }
  }

  /** The key-character filter works character by character, in the same sense. */
  lemma {:induction false} KeepKeyCharsConcat(a: string, b: string)
    ensures KeepKeyChars(a + b) == KeepKeyChars(a) + KeepKeyChars(b)
    ensures KeepKeyChars([]) == [] && forall c :: KeepKeyChars([c]) == if IsKeyChar(c) then [c] else []
  {
    if a == "" {
      assert a + b == b;
    } else {
      assert (a + b)[1..] == a[1..] + b;
      KeepKeyCharsConcat(a[1..], b);
    }
  }

  /** A string made only of key characters passes the filter unchanged. */
  lemma {:induction false} KeepKeyCharsOfKeyChars(s: string)
    requires forall i :: 0 <= i < |s| ==> IsKeyChar(s[i])
    ensures KeepKeyChars(s) == s
  {
    if s != "" {
      KeepKeyCharsOfKeyChars(s[1..]);
    }
  }

  /** Removing whitespace first changes nothing: no whitespace character is a key character. */
  lemma {:induction false} KeepKeyCharsIgnoresWhitespace(s: string)
    ensures KeepKeyChars(RemoveWhitespace(s)) == KeepKeyChars(s)
  {
    if s != "" {
      KeepKeyCharsIgnoresWhitespace(s[1..]);
    }
  }

  /** Cleaning keeps exactly the key characters, in order; a key made of them is its own cleaning. */
  lemma CleanKeyIsFilter(k: string)
    ensures CleanKey(Some(k)) == KeepKeyChars(k)
    ensures (forall i :: 0 <= i < |k| ==> IsKeyChar(k[i])) ==> CleanKey(Some(k)) == k
  {
    KeepKeyCharsIgnoresWhitespace(k);
    if forall i :: 0 <= i < |k| ==> IsKeyChar(k[i]) {
      KeepKeyCharsOfKeyChars(k);
    }
  }

  /** Cleaning twice is cleaning once. */
  lemma CleanKeyIdempotent(key: Option<string>)
    ensures CleanKey(Some(CleanKey(key))) == CleanKey(key)
  {
    CleanKeyIsFilter(CleanKey(key));
  }

  // ----- step 2: padding -----

  function Repeat(c: char, n: nat): (r: string)
    ensures |r| == n && forall i :: 0 <= i < n ==> r[i] == c
  {
    if n == 0 then "" else [c] + Repeat(c, n - 1)
  }

  /** Appends `=` until the length is a multiple of four. */
  function Pad(k: string): (r: string)
    ensures |r| % 4 == 0
    ensures |k| <= |r| <= |k| + 3 && r[..|k|] == k
    ensures forall i :: |k| <= i < |r| ==> r[i] == '='
  {
    var padding := 4 - |k| % 4;
    if padding != 4 then k + Repeat('=', padding) else k
  }

  // ----- steps 3 and 4: decoding and splitting -----

  /** `base64.b64decode(k).decode('utf-8')`. */
  function DecodeText(k: string): (r: Option<string>)
    ensures r.Some? ==> |k| % 4 == 0 && |r.value| <= 3 * (|k| / 4)
  {
    match Base64.Decode(k)
    case None => None
    case Some(bytes) => Utf8.Decode(bytes)
  }

  /** Any text survives `b64encode(text.encode())` followed by the decoding above. */
  lemma DecodeTextEncode(t: string)
    ensures DecodeText(Base64.Encode(Utf8.Encode(t))) == Some(t)
  {
    Base64.DecodeEncode(Utf8.Encode(t));
    Utf8.DecodeEncode(t);
  }

  /**
   * The three `|`-separated fields of the decoded key (`decoded.split('|')`
   * of length three), or `None` when decoding fails or the count is wrong.
   */
  function DecodeFields(paddedKey: string): (r: Option<(string, string, string)>)
    ensures r.Some? ==>
      && DecodeText(paddedKey) == Some(r.value.0 + "|" + r.value.1 + "|" + r.value.2)
      && '|' !in r.value.0 && '|' !in r.value.1 && '|' !in r.value.2
  {
    match DecodeText(paddedKey)
    case None => None
    case Some(text) =>
      var parts := Split(text, '|');
      if |parts| != 3 then None
      else
        JoinThree(parts, '|');
        Some((parts[0], parts[1], parts[2]))
  }

  // ----- steps 5 to 8: the fields -----

  /** The basic email check: an `@` and a `.` somewhere. */
  predicate IsEmail(email: string)
    ensures IsEmail(email) ==> |email| >= 2
  {
    '@' in email && '.' in email
  }

  /** The first eight hex digits of the digest of `email|expiry` followed by the secret. */
  function Sign(email: string, expiryText: string, secret: string, md5: seq<byte> -> HexDigest): (sig: string)
    ensures |sig| == 8 && forall i :: 0 <= i < 8 ==> IsLowerHex(sig[i])
  {
    md5(Utf8.Encode(email + "|" + expiryText + secret))[..8]
  }

  /** `(later - earlier).days`: the whole days of a `timedelta`, rounded toward minus infinity. */
  function TimedeltaDays(earlier: Instant, later: Instant): (days: int)
    ensures days * MicrosPerDay <= later - earlier < (days + 1) * MicrosPerDay
  {
    (later - earlier) / MicrosPerDay
  }

  /**
   * Steps 5 to 8, on the three fields of a decoded key. The expiry is compared
   * with the clock reading `now`; the days left are counted from `daysFrom`.
   */
  function CheckFields(email: string, expiryText: string, signature: string, paddedKey: string,
                       config: Config, now: Instant, daysFrom: Instant, md5: seq<byte> -> HexDigest)
    : (r: Result<LicenseInfo, Rejection>)
    ensures r.Success? ==>
      && r.value.email == email && IsEmail(email)
      && signature == Sign(email, expiryText, config.secret, md5)
      && |expiryText| == 14 && Parse(expiryText) == Some(r.value.expiry)
      && Valid(r.value.expiry) && now <= ToInstant(r.value.expiry)
      && r.value.daysLeft * MicrosPerDay <= ToInstant(r.value.expiry) - daysFrom < (r.value.daysLeft + 1) * MicrosPerDay
      && r.value.licenseKey == paddedKey && r.value.environment == config.environment
    ensures r.Failure? && r.error.Expired? ==>
      && |expiryText| == 14 && Parse(expiryText) == Some(r.error.expiry)
      && Valid(r.error.expiry) && ToInstant(r.error.expiry) < now
  {
    if !IsEmail(email) then Failure(InvalidEmail)
    else if signature != Sign(email, expiryText, config.secret, md5) then Failure(ValidationFailed)
    else if |expiryText| != 14 then Failure(InvalidExpiryFormat)
    else
      match Parse(expiryText)
      case None => Failure(InvalidExpiryDate)
      case Some(expiry) =>
        if now > ToInstant(expiry) then Failure(Expired(expiry))
        else Success(LicenseInfo(email, expiry, TimedeltaDays(daysFrom, ToInstant(expiry)), paddedKey, config.environment))
  }

  /**
   * `LicenseValidator.validate` as written: the expiry test and the day count
   * each read the clock (`now` and `nowAgain`).
   */
  function ValidateReadingClockTwice(key: Option<string>, config: Config, now: Instant, nowAgain: Instant,
                                     md5: seq<byte> -> HexDigest): (r: Result<LicenseInfo, Rejection>)
    ensures |CleanKey(key)| < MinKeyLength ==> r == Failure(InvalidKey)
    ensures r.Success? ==>
      && Valid(r.value.expiry)
      && now <= ToInstant(r.value.expiry)
      && r.value.daysLeft * MicrosPerDay <= ToInstant(r.value.expiry) - nowAgain < (r.value.daysLeft + 1) * MicrosPerDay
      && r.value.licenseKey == Pad(CleanKey(key))
      && IsEmail(r.value.email)
    ensures r.Failure? && r.error.Expired? ==> Valid(r.error.expiry) && ToInstant(r.error.expiry) < now
  {
    var cleaned := CleanKey(key);
    if |cleaned| < MinKeyLength then Failure(InvalidKey)
    else
      var padded := Pad(cleaned);
      match DecodeFields(padded)
      case None => Failure(InvalidFormat)
      case Some((email, expiryText, signature)) =>
        CheckFields(email, expiryText, signature, padded, config, now, nowAgain, md5)
  }

  /**
   * `LicenseValidator.validate` with one clock reading `now`, the secret and
   * MD5 as parameters. An accepted key has not expired at `now` and reports
   * the whole days from `now` to its expiry.
   */
  function Validate(key: Option<string>, config: Config, now: Instant, md5: seq<byte> -> HexDigest)
    : (r: Result<LicenseInfo, Rejection>)
    ensures |CleanKey(key)| < MinKeyLength ==> r == Failure(InvalidKey)
    ensures r.Success? ==>
      && Valid(r.value.expiry)
      && now <= ToInstant(r.value.expiry)
      && r.value.daysLeft >= 0
      && r.value.daysLeft * MicrosPerDay <= ToInstant(r.value.expiry) - now < (r.value.daysLeft + 1) * MicrosPerDay
      && r.value.licenseKey == Pad(CleanKey(key))
      && IsEmail(r.value.email)
    ensures r.Failure? && r.error.Expired? ==> Valid(r.error.expiry) && ToInstant(r.error.expiry) < now
  {
    ValidateReadingClockTwice(key, config, now, now, md5)
  }

  // ----- what a key carries -----

  /**
   * The key survives cleaning with at least 20 characters, and its padded form
   * decodes to the three given `|`-free fields joined by `|`.
   */
  ghost predicate DecodesTo(key: Option<string>, email: string, expiryText: string, signature: string) {
    && |CleanKey(key)| >= MinKeyLength
    && DecodeText(Pad(CleanKey(key))) == Some(email + "|" + expiryText + "|" + signature)
    && '|' !in email && '|' !in expiryText && '|' !in signature
  }

  /** Text that is three `|`-free fields joined by `|` splits back into them. */
  lemma DecodeFieldsOf(paddedKey: string, email: string, expiryText: string, signature: string)
    requires DecodeText(paddedKey) == Some(email + "|" + expiryText + "|" + signature)
    requires '|' !in email && '|' !in expiryText && '|' !in signature
    ensures DecodeFields(paddedKey) == Some((email, expiryText, signature))
  {
    var parts := [email, expiryText, signature];
    JoinThree(parts, '|');
    SplitJoin(parts, '|');
  }

  /** A key gets past decoding and splitting exactly when it carries three fields. */
  lemma FormatRejection(key: Option<string>, config: Config, now: Instant, md5: seq<byte> -> HexDigest)
    requires |CleanKey(key)| >= MinKeyLength
    ensures (Validate(key, config, now, md5) == Failure(InvalidFormat)) <==>
      !exists email, expiryText, signature :: DecodesTo(key, email, expiryText, signature)
  {
    var padded := Pad(CleanKey(key));
    match DecodeFields(padded)
    case None =>
      forall email, expiryText, signature | DecodesTo(key, email, expiryText, signature)
        ensures false
      {
        DecodeFieldsOf(padded, email, expiryText, signature);
      }
    case Some((email, expiryText, signature)) =>
      assert DecodesTo(key, email, expiryText, signature);
  }

  /** Once a key carries three fields, the validator as written is the field checks with both clock readings. */
  lemma FieldsReadingClockTwice(key: Option<string>, config: Config, now: Instant, nowAgain: Instant,
                                md5: seq<byte> -> HexDigest, email: string, expiryText: string, signature: string)
    requires DecodesTo(key, email, expiryText, signature)
    ensures ValidateReadingClockTwice(key, config, now, nowAgain, md5)
      == CheckFields(email, expiryText, signature, Pad(CleanKey(key)), config, now, nowAgain, md5)
  {
    DecodeFieldsOf(Pad(CleanKey(key)), email, expiryText, signature);
  }

  /** Fields that pass the email, signature and format checks leave only the expiry test. */
  lemma CheckFieldsOutcome(email: string, expiryText: string, signature: string, paddedKey: string,
                           config: Config, now: Instant, daysFrom: Instant, md5: seq<byte> -> HexDigest, expiry: DateTime)
    requires IsEmail(email) && signature == Sign(email, expiryText, config.secret, md5)
    requires |expiryText| == 14 && Parse(expiryText) == Some(expiry)
    ensures CheckFields(email, expiryText, signature, paddedKey, config, now, daysFrom, md5)
      == if now > ToInstant(expiry) then Failure(Expired(expiry))
         else Success(LicenseInfo(email, expiry, TimedeltaDays(daysFrom, ToInstant(expiry)), paddedKey, config.environment))
  {
  }

  /** Steps 5 to 8 are the only checks left once a key carries three fields. */
  lemma ValidateFields(key: Option<string>, config: Config, now: Instant, md5: seq<byte> -> HexDigest,
                       email: string, expiryText: string, signature: string)
    requires DecodesTo(key, email, expiryText, signature)
    ensures Validate(key, config, now, md5)
      == CheckFields(email, expiryText, signature, Pad(CleanKey(key)), config, now, now, md5)
  {
    DecodeFieldsOf(Pad(CleanKey(key)), email, expiryText, signature);
  }

  /** The email is checked before the signature. */
  lemma EmailCheckedFirst(key: Option<string>, config: Config, now: Instant, md5: seq<byte> -> HexDigest,
                          email: string, expiryText: string, signature: string)
    requires DecodesTo(key, email, expiryText, signature)
    requires !IsEmail(email)
    ensures Validate(key, config, now, md5) == Failure(InvalidEmail)
  {
    ValidateFields(key, config, now, md5, email, expiryText, signature);
  }

  /**
   * A key with a good email and a wrong signature is reported as a failed
   * validation whatever its expiry field holds and whatever the time.
   */
  lemma SignatureCheckedBeforeExpiry(key: Option<string>, config: Config, now: Instant, md5: seq<byte> -> HexDigest,
                                     email: string, expiryText: string, signature: string)
    requires DecodesTo(key, email, expiryText, signature)
    requires IsEmail(email) && signature != Sign(email, expiryText, config.secret, md5)
    ensures Validate(key, config, now, md5) == Failure(ValidationFailed)
  {
    ValidateFields(key, config, now, md5, email, expiryText, signature);
  }

  /** A correctly signed key whose expiry field is not a timestamp is rejected for that. */
  lemma ExpiryFormatChecked(key: Option<string>, config: Config, now: Instant, md5: seq<byte> -> HexDigest,
                            email: string, expiryText: string, signature: string)
    requires DecodesTo(key, email, expiryText, signature)
    requires IsEmail(email) && signature == Sign(email, expiryText, config.secret, md5)
    ensures |expiryText| != 14 ==> Validate(key, config, now, md5) == Failure(InvalidExpiryFormat)
    ensures |expiryText| == 14 && Parse(expiryText).None? ==> Validate(key, config, now, md5) == Failure(InvalidExpiryDate)
  {
    ValidateFields(key, config, now, md5, email, expiryText, signature);
  }

  /** A correctly signed key with a past expiry is rejected as expired, carrying that expiry. */
  lemma ExpiredRejected(key: Option<string>, config: Config, now: Instant, md5: seq<byte> -> HexDigest,
                        email: string, expiryText: string, signature: string)
    requires DecodesTo(key, email, expiryText, signature)
    requires IsEmail(email) && signature == Sign(email, expiryText, config.secret, md5)
    requires |expiryText| == 14 && Parse(expiryText).Some? && ToInstant(Parse(expiryText).value) < now
    ensures Validate(key, config, now, md5) == Failure(Expired(Parse(expiryText).value))
  {
    ValidateFields(key, config, now, md5, email, expiryText, signature);
  }

  /** Every check passed: the key is accepted, reporting its email and expiry. */
  lemma AcceptedIfAllChecksPass(key: Option<string>, config: Config, now: Instant, md5: seq<byte> -> HexDigest,
                                email: string, expiryText: string, signature: string)
    requires DecodesTo(key, email, expiryText, signature)
    requires IsEmail(email) && signature == Sign(email, expiryText, config.secret, md5)
    requires |expiryText| == 14 && Parse(expiryText).Some? && now <= ToInstant(Parse(expiryText).value)
    ensures Validate(key, config, now, md5).Success?
    ensures Validate(key, config, now, md5).value.email == email
    ensures Validate(key, config, now, md5).value.expiry == Parse(expiryText).value
    ensures Validate(key, config, now, md5).value.environment == config.environment
  {
    ValidateFields(key, config, now, md5, email, expiryText, signature);
  }

  /** Only a key that passes every check is accepted. */
  lemma AcceptedOnlyIfAllChecksPass(key: Option<string>, config: Config, now: Instant, md5: seq<byte> -> HexDigest)
    requires Validate(key, config, now, md5).Success?
    ensures exists expiryText, signature ::
      && DecodesTo(key, Validate(key, config, now, md5).value.email, expiryText, signature)
      && IsEmail(Validate(key, config, now, md5).value.email)
      && signature == Sign(Validate(key, config, now, md5).value.email, expiryText, config.secret, md5)
      && |expiryText| == 14
      && Parse(expiryText) == Some(Validate(key, config, now, md5).value.expiry)
  {
    var fields := DecodeFields(Pad(CleanKey(key))).value;
    assert DecodesTo(key, fields.0, fields.1, fields.2);
  }

  // ----- the minter -----

  /** The demo email passes the email check and holds no field separator. */
  lemma DemoEmailShape()
    ensures IsEmail(DemoEmail) && '|' !in DemoEmail
  {
    assert DemoEmail[4] == '@' && DemoEmail[10] == '.';
  }

  /** The text a demo key encodes: `email|expiry|signature`. */
  function DemoText(expiryText: string, signature: string): string {
    DemoEmail + "|" + expiryText + "|" + signature
  }

  /** With a 14-digit expiry and an 8-hex-digit signature the demo text is 38 ASCII characters. */
  lemma DemoTextAscii(expiryText: string, signature: string)
    requires |expiryText| == 14 && forall i :: 0 <= i < 14 ==> IsDigit(expiryText[i])
    requires |signature| == 8 && forall i :: 0 <= i < 8 ==> IsLowerHex(signature[i])
    ensures |Utf8.Encode(DemoText(expiryText, signature))| == 38
    ensures '|' !in expiryText && '|' !in signature
  {
    var t := DemoText(expiryText, signature);
    assert forall i :: 0 <= i < 14 ==> t[i] as int < 0x80;
    assert forall i :: 14 <= i < 38 ==> t[i] as int < 0x80;
    assert forall i :: 0 <= i < 14 ==> expiryText[i] != '|';
    assert forall i :: 0 <= i < 8 ==> signature[i] != '|';
  }

  /** The demo key carrying the given expiry and signature: the base64 of the UTF-8 of the demo text. */
  function DemoKeyText(expiryText: string, signature: string): string {
    Base64.Encode(Utf8.Encode(DemoText(expiryText, signature)))
  }

  /**
   * A demo key with a 14-digit expiry and an 8-hex-digit signature is 52 key
   * characters, which cleaning and padding leave alone.
   */
  lemma DemoKeyTextShape(expiryText: string, signature: string)
    requires |expiryText| == 14 && forall i :: 0 <= i < 14 ==> IsDigit(expiryText[i])
    requires |signature| == 8 && forall i :: 0 <= i < 8 ==> IsLowerHex(signature[i])
    ensures |DemoKeyText(expiryText, signature)| == 52
    ensures CleanKey(Some(DemoKeyText(expiryText, signature))) == DemoKeyText(expiryText, signature)
    ensures Pad(DemoKeyText(expiryText, signature)) == DemoKeyText(expiryText, signature)
  {
    DemoTextAscii(expiryText, signature);
    var key := DemoKeyText(expiryText, signature);
    assert |key| == 4 * ((38 + 2) / 3);
    assert forall i :: 0 <= i < |key| ==> IsKeyChar(key[i]);
    CleanKeyIsFilter(key);
  }

  /** Such a demo key decodes to its three fields. */
  lemma DemoKeyTextDecodes(expiryText: string, signature: string)
    requires |expiryText| == 14 && forall i :: 0 <= i < 14 ==> IsDigit(expiryText[i])
    requires |signature| == 8 && forall i :: 0 <= i < 8 ==> IsLowerHex(signature[i])
    ensures DecodesTo(Some(DemoKeyText(expiryText, signature)), DemoEmail, expiryText, signature)
  {
    var text := DemoText(expiryText, signature);
    var key := DemoKeyText(expiryText, signature);
    DemoTextAscii(expiryText, signature);
    DemoKeyTextShape(expiryText, signature);
    DecodeTextEncode(text);
    DemoEmailShape();
  }

  /** The expiry a demo key minted at `now` carries. */
  function DemoExpiry(now: Instant): (d: DateTime)
    requires now + DemoValidity < DayCount * MicrosPerDay
    ensures Valid(d)
    ensures ToInstant(d) == now + DemoValidity - now % MicrosPerSecond
  {
    var t := now + DemoValidity;
    assert t / MicrosPerSecond == now / MicrosPerSecond + 31_536_000;
    FromInstant(t)
  }

  /**
   * `generate_demo_key`: a key for the demo email expiring 365 days after
   * `now`, to the second. `None` where that expiry lies past year 9999, where
   * Python raises `OverflowError`.
   */
  function GenerateDemoKey(secret: string, now: Instant, md5: seq<byte> -> HexDigest): (key: Option<string>)
    ensures key.Some? <==> now + DemoValidity < DayCount * MicrosPerDay
  {
    if now + DemoValidity >= DayCount * MicrosPerDay then None
    else
      var expiryText := Format(DemoExpiry(now));
      var signature := Sign(DemoEmail, expiryText, secret, md5);
      Some(DemoKeyText(expiryText, signature))
  }

  /** A minted key is 52 characters of the key alphabet, so cleaning and padding leave it alone. */
  lemma DemoKeyShape(secret: string, now: Instant, md5: seq<byte> -> HexDigest)
    requires now + DemoValidity < DayCount * MicrosPerDay
    ensures |GenerateDemoKey(secret, now, md5).value| == 52
    ensures CleanKey(GenerateDemoKey(secret, now, md5)) == GenerateDemoKey(secret, now, md5).value
    ensures Pad(GenerateDemoKey(secret, now, md5).value) == GenerateDemoKey(secret, now, md5).value
  {
    var expiryText := Format(DemoExpiry(now));
    DemoKeyTextShape(expiryText, Sign(DemoEmail, expiryText, secret, md5));
  }

  /** What a minted key decodes to. */
  lemma DemoKeyDecodes(secret: string, now: Instant, md5: seq<byte> -> HexDigest)
    requires now + DemoValidity < DayCount * MicrosPerDay
    ensures DecodesTo(GenerateDemoKey(secret, now, md5), DemoEmail, Format(DemoExpiry(now)),
                      Sign(DemoEmail, Format(DemoExpiry(now)), secret, md5))
  {
    var expiryText := Format(DemoExpiry(now));
    DemoKeyTextDecodes(expiryText, Sign(DemoEmail, expiryText, secret, md5));
  }

  /**
   * A minted key, checked with its own secret, meets every check but the
   * expiry: the outcome turns on the first clock reading alone.
   */
  lemma DemoKeyOutcome(secret: string, environment: string, mintedAt: Instant, now: Instant, nowAgain: Instant,
                       md5: seq<byte> -> HexDigest)
    requires mintedAt + DemoValidity < DayCount * MicrosPerDay
    ensures ValidateReadingClockTwice(GenerateDemoKey(secret, mintedAt, md5), Config(secret, environment), now, nowAgain, md5)
      == if now > ToInstant(DemoExpiry(mintedAt)) then Failure(Expired(DemoExpiry(mintedAt)))
         else Success(LicenseInfo(DemoEmail, DemoExpiry(mintedAt), TimedeltaDays(nowAgain, ToInstant(DemoExpiry(mintedAt))),
                                  GenerateDemoKey(secret, mintedAt, md5).value, environment))
  {
    var expiry := DemoExpiry(mintedAt);
    var expiryText := Format(expiry);
    var signature := Sign(DemoEmail, expiryText, secret, md5);
    var key := DemoKeyText(expiryText, signature);
    var config := Config(secret, environment);
    assert GenerateDemoKey(secret, mintedAt, md5) == Some(key);
    DemoKeyTextShape(expiryText, signature);
    DemoKeyTextDecodes(expiryText, signature);
    FieldsReadingClockTwice(Some(key), config, now, nowAgain, md5, DemoEmail, expiryText, signature);
    ParseFormat(expiry);
    DemoEmailShape();
    CheckFieldsOutcome(DemoEmail, expiryText, signature, key, config, now, nowAgain, md5, expiry);
  }

  /**
   * With the same secret, a minted key is accepted at any time up to its
   * expiry, for the demo email, and yields the key itself back.
   */
  lemma DemoKeyRoundTrip(secret: string, environment: string, now: Instant, later: Instant,
                         md5: seq<byte> -> HexDigest)
    requires now + DemoValidity < DayCount * MicrosPerDay
    requires later <= ToInstant(DemoExpiry(now))
    ensures Validate(GenerateDemoKey(secret, now, md5), Config(secret, environment), later, md5)
      == Success(LicenseInfo(DemoEmail, DemoExpiry(now), TimedeltaDays(later, ToInstant(DemoExpiry(now))),
                             GenerateDemoKey(secret, now, md5).value, environment))
  {
    DemoKeyOutcome(secret, environment, now, later, later, md5);
  }

  /** After its expiry a minted key is rejected as expired. */
  lemma DemoKeyExpires(secret: string, environment: string, now: Instant, later: Instant,
                       md5: seq<byte> -> HexDigest)
    requires now + DemoValidity < DayCount * MicrosPerDay
    requires later > ToInstant(DemoExpiry(now))
    ensures Validate(GenerateDemoKey(secret, now, md5), Config(secret, environment), later, md5)
      == Failure(Expired(DemoExpiry(now)))
  {
    DemoKeyOutcome(secret, environment, now, later, later, md5);
  }

  /**
   * Validated at the instant it was minted, a demo key reports 365 days left
   * only when that instant falls on a whole second; otherwise the dropped
   * microseconds leave 364.
   */
  lemma DemoKeyDaysAtMint(secret: string, environment: string, now: Instant, md5: seq<byte> -> HexDigest)
    requires now + DemoValidity < DayCount * MicrosPerDay
    ensures Validate(GenerateDemoKey(secret, now, md5), Config(secret, environment), now, md5).Success?
    ensures Validate(GenerateDemoKey(secret, now, md5), Config(secret, environment), now, md5).value.daysLeft
      == if now % MicrosPerSecond == 0 then 365 else 364
  {
    DemoKeyRoundTrip(secret, environment, now, now, md5);
    var diff := ToInstant(DemoExpiry(now)) - now;
    assert diff == DemoValidity - now % MicrosPerSecond;
    assert TimedeltaDays(now, ToInstant(DemoExpiry(now))) == diff / MicrosPerDay;
  }

  /**
   * Reading the clock twice lets an accepted key report a negative day count:
   * a demo key checked at its exact expiry, with the clock one microsecond
   * later at the second reading, is accepted with -1 days left.
   */
  lemma SecondClockReadingGivesNegativeDays(secret: string, environment: string, mintedAt: Instant,
                                            md5: seq<byte> -> HexDigest)
    requires mintedAt + DemoValidity < DayCount * MicrosPerDay
    requires ToInstant(DemoExpiry(mintedAt)) + 1 < DayCount * MicrosPerDay
    ensures ValidateReadingClockTwice(GenerateDemoKey(secret, mintedAt, md5), Config(secret, environment),
      ToInstant(DemoExpiry(mintedAt)), ToInstant(DemoExpiry(mintedAt)) + 1, md5).Success?
    ensures ValidateReadingClockTwice(GenerateDemoKey(secret, mintedAt, md5), Config(secret, environment),
      ToInstant(DemoExpiry(mintedAt)), ToInstant(DemoExpiry(mintedAt)) + 1, md5).value.daysLeft == -1
  {
    var expiry := ToInstant(DemoExpiry(mintedAt));
    DemoKeyOutcome(secret, environment, mintedAt, expiry, expiry + 1, md5);
    assert TimedeltaDays(expiry + 1, expiry) == -1;
  }

  // ----- messages -----

  function MonthName(m: int): string
    requires 1 <= m <= 12
  {
    ["January", "February", "March", "April", "May", "June", "July",
     "August", "September", "October", "November", "December"][m - 1]
  }

  /** The text the validator returns with each rejection (`%d %B %Y` in the C locale for an expiry). */
  function Message(r: Rejection): (m: string)
    requires r.Expired? ==> Valid(r.expiry)
    ensures r.Expired? <==> |m| > 19 && m[..19] == "License expired on "
    ensures r.Expired? ==> |m| > 27 && m[19..21] == Digits2(r.expiry.day) && m[|m| - 4..] == Digits4(r.expiry.year)
  {
    match r
    case InvalidKey => "Invalid license key"
    case InvalidFormat =>
      var m := "Invalid license format";
      assert m[..19][0] != "License expired on "[0];
      m
    case InvalidEmail =>
      var m := "Invalid email format";
      assert m[..19][0] != "License expired on "[0];
      m
    case ValidationFailed =>
      var m := "License validation failed";
      assert m[..19][8] != "License expired on "[8];
      m
    case InvalidExpiryFormat =>
      var m := "Invalid expiry format";
      assert m[..19][0] != "License expired on "[0];
      m
    case InvalidExpiryDate => "Invalid expiry date"
    case Expired(d) =>
      "License expired on " + Digits2(d.day) + " " + MonthName(d.month) + " " + Digits4(d.year)
  }

  /** The message tells which check failed: different kinds of rejection never share a message. */
  lemma MessagesIdentifyCheck(r1: Rejection, r2: Rejection)
    requires r1.Expired? ==> Valid(r1.expiry)
    requires r2.Expired? ==> Valid(r2.expiry)
    requires Message(r1) == Message(r2)
    ensures r1.Expired? == r2.Expired?
    ensures !r1.Expired? ==> r1 == r2
  {
  }
}
