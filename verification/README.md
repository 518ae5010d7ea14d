# License-key validation of the klink dashboard, in Dafny

This project models the license gate of the klink dashboard (`app.py`) and proves properties about it.

A license key is the base64 text of the UTF-8 bytes of `email|expiry|signature`. Here `expiry` is a `YYYYMMDDhhmmss` timestamp. `signature` is the first eight hex digits of the MD5 digest of `email|expiry` followed by a server-side secret.

- `LicenseValidator.validate` cleans the key, pads it with `=`, decodes it, splits it into three fields, then checks the email, the signature, the expiry format and the expiry date, in that order. Each check has its own rejection message.
- `generate_demo_key` mints a key for `demo@klink.com` that expires 365 days from now.
- `check_auth` is the gate in front of the dashboard. It reads and writes the session entries `authenticated`, `user_info` and `expired_msg`.

Modules, one per concern:

- `Wrappers` (`wrappers.dfy`): `Option` and `Result`.
- `Bytes` (`bytes.dfy`): the `byte` type shared by the two codecs.
- `Base64` (`base64.dfy`): encoding and canonical decoding, using the alphabet of RFC 4648 section 4 and the padding of section 3.2.
- `Utf8` (`utf8.dfy`): the encoder, and the strict decoder that accepts only the well-formed sequences of table 3-7 of the Unicode Standard.
- `Calendar` (`calendar.dfy`): what the validator needs from Python's `datetime`.
  - The proleptic Gregorian calendar for years 1 to 9999.
  - Instants, counted in microseconds since 0001-01-01T00:00:00.
  - `strftime`/`strptime` with the format `%Y%m%d%H%M%S`.
- `Text` (`text.dfy`): `str.split` with a one-character separator, and its inverse.
- `License` (`license.dfy`): the validator and the minter.
- `Session` (`session.dfy`): `check_auth`, as a method on a class that holds the session entries.

The validator and the minter are pure functions of the key, the secret, the current time and the MD5 hex-digest function. The last three are parameters. `check_auth` changes the session in place, so it is modelled as a method with a `modifies` clause.

Three facts about the code:

- The code has no hard-coded bypass token. The demo button in `show_login` (app.py:177-193) is commented out, and even that button only validated a freshly minted key.
- An expiry field whose length is not 14 gets "Invalid expiry format". A 14-character field that `strptime` refuses gets "Invalid expiry date". These are two separate rejections.
- `strptime`'s day pattern also accepts a space followed by a digit 1-9, so the expiry does not have to be 14 digits. For example, `202501 1000000` is 1 January 2025. `Calendar.ParseSpaceDay` states that every such text is accepted, and `Calendar.FormatParse` states that this spelling is the only departure from the formatted text.

## Model

| member | source | states |
|---|---|---|
| `Base64.Encode` | app.py:109 | The encoding has 4·⌈n/3⌉ characters, all from the base64 alphabet or `=`. |
| `Base64.Decode` | app.py:52 | Decoding succeeds only on text whose length is a multiple of 4. It yields between 3·(len/4) − 2 and 3·(len/4) bytes. |
| `Base64.DecodeEncode` | app.py:52 | Decoding an encoding gives back the original bytes. |
| `Utf8.Encode` | app.py:69 | Every character takes at least one byte. ASCII text takes exactly one byte per character. |
| `Utf8.Decode` | app.py:52 | Strict decoding yields at most one character per byte. |
| `Utf8.DecodeFirstEncodeChar` | app.py:52 | The decoder reads back one encoded scalar value and its byte length. Overlong, surrogate and out-of-range forms are never produced. |
| `Utf8.DecodeEncode` | app.py:52 | `bytes.decode('utf-8')` undoes `str.encode()` for every string. |
| `Utf8.EncodeCharDecodeFirst` | app.py:52 | The first scalar value the strict decoder reads is encoded by exactly the bytes it was read from. |
| `Utf8.EncodeDecode` | app.py:52 | Strictness: bytes that decode are the encoding of the text they decode to, so no other byte sequence is accepted for that text. |
| `Calendar.DaysBeforeNextYear` | app.py:78 | The closed-form day count before year y+1 is the count before y plus the length of year y. |
| `Calendar.DayNumber` | app.py:78 | A valid date-time's day number falls inside its year and inside the range `datetime` can hold. |
| `Calendar.ToInstant` | app.py:82 | A parsed expiry names a representable instant that falls on a whole second. |
| `Calendar.FromSeconds` | app.py:102-103 | For every second count in range, the result is a valid date-time whose second count is exactly that one. |
| `Calendar.FromInstant` | app.py:103 | The result is the valid date-time of the whole second the instant falls in: its instant is the input minus its microseconds, which `strftime` drops. |
| `Calendar.ToSecondsInjective` | app.py:78 | Two different valid date-times never name the same second. |
| `Calendar.FromToSeconds` | app.py:78 | Converting a valid date-time to seconds and back gives the same date-time. |
| `Calendar.Format` | app.py:103 | `%Y%m%d%H%M%S` is 14 ASCII digits. |
| `Calendar.Parse` | app.py:76-80 | `strptime` on 14 characters only yields date-times that `datetime` accepts. |
| `Calendar.ParseFormat` | app.py:103 | Parsing the formatted text of a valid date-time gives it back. |
| `Calendar.ParseSpaceDay` | app.py:78 | A formatted date-time with a day below 10, whose leading zero is replaced by a space, parses to the same date-time. |
| `Calendar.FormatParse` | app.py:78 | Text that parses is the formatted text of its result, except that a day may have a leading space instead of a zero. |
| `Text.Split` | app.py:56 | The pieces are non-empty in number and free of the separator. Joining them with the separator restores the text. |
| `Text.SplitJoin` | app.py:56-61 | Splitting separator-free parts joined by the separator gives the parts back. |
| `License.RemoveWhitespace` | app.py:33 | The result has no whitespace, and every non-whitespace character of the input occurs in it. |
| `License.RemoveWhitespaceConcat` | app.py:33 | The filter works character by character: filtering a concatenation concatenates the filtered parts, and one character is dropped exactly when it is whitespace. So the kept characters stay in order, each as often as in the input. |
| `License.KeepKeyChars` | app.py:34 | The result is no longer than the input, holds only `A-Za-z0-9+/=`, and every such character of the input occurs in it. |
| `License.KeepKeyCharsConcat` | app.py:34 | The filter works character by character: filtering a concatenation concatenates the filtered parts, and one character is kept exactly when it is a key character. So the kept characters stay in order, each as often as in the input. |
| `License.CleanKey` | app.py:29-35 | `None` and `""` give `""`. Otherwise the result holds only key characters. |
| `License.KeepKeyCharsIgnoresWhitespace` | app.py:33-34 | Stripping whitespace before the character filter changes nothing. |
| `License.CleanKeyIsFilter` | app.py:29-35 | Cleaning is exactly the key-character filter. A key made only of key characters is unchanged. |
| `License.CleanKeyIdempotent` | app.py:29-35 | Cleaning twice gives the same result as cleaning once. |
| `License.Pad` | app.py:45-48 | The result's length is a multiple of 4. The result is the key followed by at most three `=`. |
| `License.DecodeText` | app.py:52 | `b64decode(...).decode('utf-8')` succeeds only on text whose length is a multiple of 4. It yields at most three characters per four of input. |
| `License.DecodeTextEncode` | app.py:52 | Any text, UTF-8 encoded and then base64 encoded, decodes back to itself. |
| `License.DecodeFields` | app.py:50-61 | Three fields come back only when the key decodes to them joined by the bar character, each free of the bar character. |
| `License.IsEmail` | app.py:63-65 | The basic email check needs both an `@` and a `.`, so a passing email has at least two characters. |
| `License.Sign` | app.py:67-69 | The expected signature is 8 lowercase hex digits. |
| `License.TimedeltaDays` | app.py:85 | `timedelta.days` is the floor of the difference in whole days. |
| `License.CheckFields` | app.py:63-93 | Fields are accepted only with an email holding `@` and `.`, the matching signature, and a 14-character expiry that parses to the reported expiry and is not before `now`. `days_left` is the floor of the days from the day-count reading to the expiry. The key and environment are passed through. An "expired" verdict carries the parsed expiry, which is before `now`. |
| `License.ValidateReadingClockTwice` | app.py:37-93 | The validator as written: short keys are rejected first. An accepted expiry is not before the first clock reading, while `days_left` is the floor of the days from the second reading. An "expired" verdict carries an expiry before the first reading. |
| `License.Validate` | app.py:37-93 | A cleaned key shorter than 20 gets "Invalid license key". For an accepted key: the expiry is not before `now`; `days_left` is the floor of the days until it, so `days_left >= 0`; the license key is the cleaned, padded key; the email has `@` and `.`. An "expired" verdict carries an expiry earlier than `now`. |
| `License.DecodeFieldsOf` | app.py:56-61 | Text made of three bar-free fields joined by the bar character splits into exactly those fields. |
| `License.FormatRejection` | app.py:50-59 | Once the key is long enough, "Invalid license format" is returned exactly when the key does not decode to three bar-separated fields. |
| `License.ValidateFields` | app.py:61-93 | Once the fields are decoded, the outcome depends only on the email, signature and expiry checks. |
| `License.EmailCheckedFirst` | app.py:63-65 | A decoded key whose email lacks `@` or `.` gets "Invalid email format", whatever its signature and expiry. |
| `License.SignatureCheckedBeforeExpiry` | app.py:67-80 | A well-formed key with a valid email and a wrong signature gets "License validation failed", whatever its expiry field holds and whatever the time. |
| `License.ExpiryFormatChecked` | app.py:74-80 | A correctly signed key with an expiry that is not 14 long gets "Invalid expiry format". One that is 14 long but unparsable gets "Invalid expiry date". |
| `License.ExpiredRejected` | app.py:82-83 | A correctly signed key whose expiry is before `now` is rejected as expired, carrying that expiry. |
| `License.AcceptedIfAllChecksPass` | app.py:63-93 | A key that passes every check is accepted with its email, its parsed expiry and the configured environment. `now == expiry` is accepted. |
| `License.AcceptedOnlyIfAllChecksPass` | app.py:63-93 | An accepted key decodes to the reported email, an expiry text that parses to the reported expiry, and the matching signature. |
| `License.DemoExpiry` | app.py:102-103 | The minted expiry is 365 days after `now`, truncated to the second. |
| `License.DemoTextAscii` | app.py:105-108 | The minted text is 38 ASCII characters. Its expiry and signature contain no bar character. |
| `License.GenerateDemoKey` | app.py:99-109 | A key is minted exactly when `now` + 365 days is still before year 10000. Otherwise Python raises `OverflowError`. |
| `License.DemoKeyShape` | app.py:109 | A minted key is 52 key characters, so cleaning and padding leave it unchanged. |
| `License.DemoKeyDecodes` | app.py:105-109 | A minted key decodes to the demo email, the formatted expiry and the signature of both. |
| `License.DemoKeyOutcome` | app.py:82-109 | A minted key, checked with its own secret, passes every check but the expiry. It is rejected as expired exactly when the first clock reading is past its expiry. Otherwise it is accepted with the demo email, the minted expiry, the days counted from the second reading, and the key itself. |
| `License.DemoKeyRoundTrip` | app.py:99-109 | With the same secret, a minted key is accepted at any time up to its expiry. The result has the demo email and the minted expiry, and returns the key itself. |
| `License.DemoKeyExpires` | app.py:82-83 | After its expiry, a minted key is rejected as expired. |
| `License.DemoKeyDaysAtMint` | app.py:102-103 | Validated at the instant it was minted, a demo key has 365 days left if that instant is a whole second, and 364 otherwise. |
| `License.SecondClockReadingGivesNegativeDays` | app.py:82-85 | With the clock read twice, a key checked at its exact expiry is accepted with `days_left == -1`. |
| `License.Message` | app.py:43-83 | A message starts with "License expired on " exactly when the rejection is an expiry. That message carries the expiry's two-digit day right after the prefix and its four-digit year at the end (`%d %B %Y`). |
| `License.MessagesIdentifyCheck` | app.py:43-83 | Different kinds of rejection never produce the same message. |
| `Session.AcceptedLicenseOpensGate` | app.py:125-132 | An identity the validator accepted at `now` passes the gate at `now` and at every later moment up to its expiry. |
| `Session.SessionState.constructor` | app.py:114 | A new session holds none of the three entries. |
| `Session.SessionState.CheckAuth` | app.py:112-132 | Returns true exactly when `authenticated` is true, `user_info` is present and `now` is not after its expiry. A true return changes nothing. After a false return `authenticated` is false. Only the expiry path sets `expired_msg`. `user_info` is never touched. |

## Left out

- `utils/database.py` is not part of this model. It opens an SSH tunnel and an ODBC connection, runs `pd.read_sql`, and reports failures with `st.error`. That is I/O plumbing with no state or policy to verify.
- MD5 is not modelled. The hex-digest function is a parameter returning 32 lowercase hex digits.
- Base64.Decode: accepts only canonical text. CPython's lenient decoder may still decode text with `=` inside it or with surplus `=` at the end; the model rejects both with "Invalid license format". Unused bits in the last character are ignored, as CPython ignores them.
- Utf8.Decode: Python strings holding lone surrogates have no counterpart, because Dafny characters are Unicode scalar values.
- Calendar.Parse: accepts only ASCII digits. `strptime`'s `\d` also accepts other Unicode decimal digits.
- Calendar.Format: always writes the year as four digits. For years before 1000, some platforms' `strftime('%Y')` writes fewer digits, which would give an expiry field shorter than 14.
- License.Validate: reads the clock once. The source reads it twice (app.py:82, 85). That behaviour is modelled by `License.ValidateReadingClockTwice` and reported under Findings.
- License.Message: the expiry date is written with English month names (`%d %B %Y` in the C locale). Other locales are not modelled.
- The catch-all `except Exception` (app.py:95-96) is not modelled. Each step of the model is total, so no error reaches it.
- Choosing the secret and the environment name from `st.secrets` (app.py:13-20) is not modelled. Both come in through `License.Config`.
- The UI is not modelled: `show_login`, `show_dashboard` and `main`, the logout that deletes session entries, and the pattern that pulls a key out of an uploaded file (app.py:135-339). So nothing models the step that stores an accepted identity in the session; `Session.AcceptedLicenseOpensGate` states what `check_auth` makes of it.
- The session is modelled as three optional typed entries, not a dictionary. Entries of other types are not modelled.

## Findings

| source | as written | input that shows it | evidently intended | confidence | as-written member | corrected member |
|---|---|---|---|---|---|---|
| app.py:82-85 | The expiry test and `days_left` each call `datetime.now()`. | A correctly signed key checked at exactly its expiry second, with the clock one microsecond later at the second call. The key is accepted with `days_left == -1`. | One clock reading, so every accepted key has `days_left >= 0`. | not executed; needs the clock to move past the expiry between two adjacent statements | `License.SecondClockReadingGivesNegativeDays` | `License.Validate` |
