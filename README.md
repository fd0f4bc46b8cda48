# Offline licence trust core, modelled in Dafny

This project models the licensing subsystem of the repository. That subsystem has three parts:
- an offline verifier for signed, machine-bound, time-limited licences;
- the machine fingerprint the verifier binds licences to;
- the resolver that turns the verifier's technical status into what the user sees.

The verifier (`public/license_verifier.py`) runs seven checks in a fixed order and reports the first failure as a technical status with a reason. The checks are, in order:
- licence version;
- required members;
- the self-referential SHA-256 `license_hash` over the canonical JSON payload;
- the Ed25519 signature;
- machine binding;
- the validity window;
- clock-rollback detection against a `timestamp|hash` marker file.

Only when all seven pass does it rewrite the marker and report `valid`.

The fingerprint (`app/fingerprint.py`) takes four host readings: the MAC address, the disk serial, the CPU and the OS. It strips, lower-cases and despaces them, joins them with `|`, and returns the SHA-256 of the joined string in upper-case hexadecimal.

The resolver (`public/app_state_resolver.py`) maps the technical status to one of four states: `ACTIVE`, `EXPIRING_SOON`, `EXPIRED` and `BLOCKED`. With the state come whether the application may be used, whether it warns, the user message, and (for a valid licence) the days left and the features. Every blocked cause shows the same message.

Files:
- `wrappers.dfy`: `Option` and `Loaded`. `Loaded` is the outcome of a host read: a value, or the text of the exception.
- `text.dfy`: the Python string operations the code uses: `strip`, ASCII `lower`/`upper`, `replace`, `join`, `split`, hexadecimal and decimal rendering, UTF-8.
- `json.dfy`: JSON values, dictionary access, and the canonical form `json.dumps(v, sort_keys=True, separators=(",", ":"))`.
- `canonical_unique.dfy`: the canonical form is unambiguous. Two dictionaries with the same canonical text hold the same keys, and each key's value has the same canonical text in both. This is what makes the hash check detect a changed member.
- `foreign.dfy`: SHA-256, base64, Ed25519, `fromisoformat` and `isoformat`, passed in as function values. Instants are microsecond counts, each with a flag saying whether it is naive or offset-aware.
- `fingerprint.dfy`, `license_verifier.dfy`, `app_state_resolver.dfy`: the three source files, one module each.

The verifier's one piece of mutable state, the marker file, is the `marker` field of class `LicenseVerifier.LicenseVerifier`.

How each part is modelled:
- The checks are functions.
- `verify_structure`'s loop is a method proved against its function.
- The coordinator's early-return chain (`RunChecks`) is proved equal to the nested function `CheckChain`. That function is in turn proved equal to running the ordered list `CHECKS` with first-failure-wins (`FirstFailure`).
- Writing the marker (`UpdateLastRun`) takes the way the write ends as an input, a `WriteOutcome`: written, failed to open (the file is untouched), or failed after `open(path, 'w')` had already emptied the file.
- `get_app_state` has two parts:
  - `ResolveVerdict` fills the record field by field, proved against the pure `AppStateFor`;
  - `GetAppState` calls the verifier method and then `ResolveVerdict`.

## Where the code departs from its own docstrings and comments

The model follows the code in each of these cases:
- **An exception from the verifier escapes to the caller.** The `get_app_state` docstring (public/app_state_resolver.py:56-59) maps every technical status to a state. But the exception is not mapped to `manipulated`, and the UI state does not turn into a `BLOCKED` record. The model calls this path `Raised`/`Escaped`. Two cases raise:
  - A licence document that is not a JSON object makes `lic.get` raise `AttributeError` (`Coordinate`).
  - A naive clock compared with an offset-aware `not_before`, `issued_at` or `expires_at` raises `TypeError`. The comparison is outside the `try` in `verify_time_window` (`AwareDateRaises`, `AwareDateEscapes`).

  A missing `machine_id` would raise `KeyError`. The structure check makes that path unreachable, and the model proves it (`NoKeyErrorEscapes`).

  So the resolver is not total, and the system does not fail closed on these inputs.
- **A marker write that fails after opening blocks every later run.** The comment at public/license_verifier.py:219 calls a failed write "not critical". But `open(path, 'w')` empties the file before `write` runs. An empty marker is one piece when split on `|`, so `check_clock_rollback` reports a rollback (public/license_verifier.py:101-103). The marker is only rewritten after a `valid` verdict, so it stays empty, and no licence is `valid` again (`EmptiedMarkerBlocks`).
- **An unreadable or corrupt marker reports `clock_rollback`, not `manipulated`.** `check_clock_rollback` catches everything itself, so a marker that does not split into two pieces, or whose timestamp does not parse, is a rollback (`MalformedMarkerIsRollback`). An offset-aware marker timestamp with the right hash is a rollback too: the `TypeError` of comparing it with the naive clock is caught (public/license_verifier.py:111-113, `WellFormedMarkerDecides`).
- **Any day count outside 0..3 is `ACTIVE` with usage allowed.** This includes negative counts: the licence expired between the verifier's clock reading and the resolver's. It also includes the error value -999. The comment beside it in `calculate_days_remaining` (public/app_state_resolver.py:49) says it should count as expired (`UnreadableExpiryIsActive`, `ExpiringSoonWindow`).
- **`license_version` accepts `true` and `false`.** Python counts booleans as the ints 1 and 0.

## Model

| member | source | states |
|---|---|---|
| Text.LeadingSpace | public/license_verifier.py:99 | the count of leading whitespace: all of it is whitespace, and the character after it is not |
| Text.TrailingSpace | public/license_verifier.py:99 | the count of trailing whitespace: all of it is whitespace, and the character before it is not |
| Text.Strip | app/fingerprint.py:64 | `str.strip()`: the result is the slice of the input between its leading and its trailing whitespace, with only whitespace cut on either side and none left at its ends |
| Text.StripUnchanged | public/license_verifier.py:99 | a string with no whitespace at either end strips to itself |
| Text.StripAround | public/license_verifier.py:99 | a timestamp, a pipe and a hash, with no whitespace at the outer ends, are left alone by `strip()` |
| Text.Lower | app/fingerprint.py:64 | `lower()`: same length; each upper-case ASCII letter becomes the letter 32 code points above, and every other character stays in its place |
| Text.LowerAppend | app/fingerprint.py:64 | lower-casing distributes over concatenation |
| Text.Upper | app/fingerprint.py:75 | `upper()`: same length; each lower-case ASCII letter becomes the letter 32 code points below, and every other character stays in its place |
| Text.RemoveChar | app/fingerprint.py:64 | `replace(" ", "")`: the character is gone, every other character is kept, and the length drops by its count |
| Text.RemoveCharAppend | app/fingerprint.py:64 | removal distributes over concatenation, so the kept characters stay in order |
| Text.RemoveCharAbsent | app/fingerprint.py:64 | removing a character that does not occur changes nothing |
| Text.RemoveCharSingle | app/fingerprint.py:64 | on one character, removal drops exactly the removed character and keeps any other |
| Text.Join | app/fingerprint.py:65 | `"|".join(parts)` starts with the first part |
| Text.JoinChars | app/fingerprint.py:65 | every character of the pipe-joined string is the separator or comes from one of the parts |
| Text.JoinCount | app/fingerprint.py:65 | joining n parts that hold no separator puts exactly n-1 separators in |
| Text.Split | public/license_verifier.py:101 | `split` on the pipe: one more piece than separators, no piece holds one, and joining the pieces gives the text back |
| Text.SplitJoin | public/license_verifier.py:101 | splitting a join of parts without the separator gives the parts back |
| Text.SplitPair | public/license_verifier.py:101-104 | two pieces without a pipe, joined by one, split into exactly those two pieces |
| Text.Digits | app/fingerprint.py:16 | the base-16 or base-10 digits of a number: at least one digit, all lower-case hexadecimal (decimal in base 10) |
| Text.DigitsValue | app/fingerprint.py:16 | the digits of `n` read back as `n` |
| Text.LeadingZerosValue | app/fingerprint.py:16 | zero padding does not change the value a digit string denotes |
| Text.PadLeft | app/fingerprint.py:16 | left padding to a width: the length is the larger of the width and the input's, and the input follows the pad |
| Text.Decimal | public/app_state_resolver.py:116 | `str(i)`: decimal digits, a leading minus exactly for negatives, and no leading zero except in "0" |
| Text.DecimalDigits | public/app_state_resolver.py:116 | `str(i)` is the decimal digits of i, after a minus sign when i is negative |
| Text.DecimalValue | public/app_state_resolver.py:116 | the digits of `str(i)` read back as the magnitude of i |
| Text.DecimalInjective | public/app_state_resolver.py:116 | different integers print differently |
| Text.HexByte | public/license_verifier.py:108 | one byte as two lower-case hexadecimal digits |
| Text.HexByteValue | public/license_verifier.py:108 | the two digits of a byte read back as the byte |
| Text.HexOfBytes | public/license_verifier.py:108 | `hexdigest()`: two lower-case hexadecimal digits per byte, byte i at positions 2i and 2i+1 |
| Text.UpperHex | app/fingerprint.py:75 | upper-casing lower-case hexadecimal gives digits 0-9 and A-F only |
| Text.Utf8Encode | app/fingerprint.py:74 | `encode("utf-8")`: at least one byte per character, and an ASCII string encodes to its own codes |
| Json.Lookup | public/license_verifier.py:132 | `d.get(k)`: present exactly when the key is, and then a member of the dict |
| Json.HasKeyMember | public/license_verifier.py:127 | `k in d` holds exactly when some member carries the key |
| Json.WithoutKey | public/license_verifier.py:199 | the dict without `signature` holds exactly the other members |
| Json.WithoutKeyHasKey | public/license_verifier.py:199 | removing a key removes only that key |
| Json.WithoutKeyLookup | public/license_verifier.py:199 | removing a key changes no other key's value |
| Json.WithoutKeyDistinct | public/license_verifier.py:13-14 | a copy with one key deleted is still a dict with distinct keys |
| Json.Truthy | public/app_state_resolver.py:206 | Python's truth value of a JSON value: false exactly for `null`, `false`, `0`, `""`, `[]` and `{}` |
| Json.StrLessIrreflexive | public/license_verifier.py:16 | Python's `str` order is irreflexive |
| Json.StrLessTransitive | public/license_verifier.py:16 | Python's `str` order is transitive |
| Json.StrLessTotal | public/license_verifier.py:16 | Python's `str` order is total on distinct strings |
| Json.StrLessAsymmetric | public/license_verifier.py:16 | Python's `str` order is asymmetric |
| Json.Insert | public/license_verifier.py:16 | inserting a member into a list adds exactly that member |
| Json.SortByKey | public/license_verifier.py:16 | `sort_keys=True`: the sorted members are a permutation of the dict's (same multiset) |
| Json.InsertStrictlySorted | public/license_verifier.py:16 | inserting a new key into a strictly sorted list keeps it strictly sorted |
| Json.SortStrictlySorted | public/license_verifier.py:16 | members with distinct keys come out in strictly increasing key order |
| Json.StrictlySortedUnique | public/license_verifier.py:16 | two strictly sorted lists with the same members are equal, so the sort result is unique |
| Json.Hex4 | public/license_verifier.py:16 | the `\uXXXX` digits of a code unit: four printable characters |
| Json.Hex4Value | public/license_verifier.py:16 | the four digits read back as the code unit |
| Json.EscapeChar | public/license_verifier.py:16 | `ensure_ascii` escaping of one character is printable ASCII and leaves plain printable characters as they are |
| Json.EscapeString | public/license_verifier.py:16 | an escaped string body is printable ASCII |
| Json.Quote | public/license_verifier.py:16 | a JSON string literal is printable ASCII |
| Json.Members | public/license_verifier.py:16 | serialising an object's values keeps each key and gives printable text |
| Json.Elements | public/license_verifier.py:16 | serialising an array's items gives printable text for each |
| Json.MemberText | public/license_verifier.py:16 | `"key":value` is printable ASCII |
| Json.Canonical | public/license_verifier.py:16 | the canonical serialisation is printable ASCII (so its UTF-8 bytes are its characters) |
| Json.ObjectText | public/license_verifier.py:16 | an object's canonical text is printable ASCII |
| Json.CanonicalIgnoresKeyOrder | public/license_verifier.py:85 | two dicts with the same members in any order serialise identically |
| CanonicalUnique.EscapeCharToken | public/license_verifier.py:16 | every escape of one character is non-empty, does not start with a quote, and is read back as that character from any text it starts |
| CanonicalUnique.EscapePrefix | public/license_verifier.py:16 | no character's escape is a prefix of another's: equal texts starting with two escapes start with the same character |
| CanonicalUnique.EscapeStringPrefix | public/license_verifier.py:16 | an escaped string body ends at its first unescaped quote, so the body and what follows are determined |
| CanonicalUnique.QuotePrefix | public/license_verifier.py:16 | a string literal followed by any text determines the string and the text |
| CanonicalUnique.DecimalPrefix | public/license_verifier.py:16 | a number followed by text that does not start with a digit determines the number and the text |
| CanonicalUnique.CanonicalFirst | public/license_verifier.py:16 | the first character of a canonical text tells the kind of value |
| CanonicalUnique.CanonicalPrefix | public/license_verifier.py:16 | a value's canonical text followed by nothing, a comma or a closing bracket or brace determines the text and what follows |
| CanonicalUnique.ElementsPrefix | public/license_verifier.py:16 | the elements of an array up to its closing bracket are determined by the text |
| CanonicalUnique.MembersPrefix | public/license_verifier.py:16 | the sorted members of an object up to its closing brace are determined by the text |
| CanonicalUnique.CanonicalObjectMembers | public/license_verifier.py:16 | two objects with the same canonical text have the same sorted members |
| CanonicalUnique.LookupMember | public/license_verifier.py:11 | in a dict with distinct keys, the member carrying a key is the one `get` finds |
| CanonicalUnique.CanonicalDetermines | public/license_verifier.py:13-16 | two dicts with the same canonical text hold the same keys, and each value has the same canonical text in both |
| CanonicalUnique.Utf8CanonicalInjective | public/license_verifier.py:16-17 | UTF-8 encoding keeps distinct canonical texts apart |
| Fingerprint.MacAddress | app/fingerprint.py:13-16 | `f"{mac:012x}"`: at least twelve lower-case hexadecimal digits |
| Fingerprint.MacAddressValue | app/fingerprint.py:16 | the MAC text reads back as the MAC number |
| Fingerprint.AlnumRun | app/fingerprint.py:42 | the greedy `[A-Za-z0-9]+`: the longest alphanumeric prefix |
| Fingerprint.TagAtShift | app/fingerprint.py:42 | a match of `SerialNumber=` at position i > 0 is a match at i-1 of the text without its first character |
| Fingerprint.SearchSerial | app/fingerprint.py:42-44 | a found serial is a non-empty alphanumeric run |
| Fingerprint.SearchSerialLeftmost | app/fingerprint.py:42-44 | `re.search`: nothing is found exactly when `SerialNumber=` followed by an alphanumeric matches nowhere; otherwise the serial is the longest alphanumeric run after the leftmost match |
| Fingerprint.Prefix | app/fingerprint.py:34 | `s[:n]`: a prefix of length min(len s, n) |
| Fingerprint.PowerShellSerial | app/fingerprint.py:29-36 | the PowerShell serial holds no space and only characters of the output; it is empty exactly when the query failed or its output is all whitespace |
| Fingerprint.DiskSerial | app/fingerprint.py:19-49 | `unknown_os` off Windows; on Windows, the first 32 characters of a non-empty PowerShell serial; otherwise the first 32 characters of the leftmost `wmic` match, or `unknown_win` |
| Fingerprint.CpuInfo | app/fingerprint.py:52-54 | `processor() or "unknown"`: never empty, and the processor string when there is one |
| Fingerprint.OsInfo | app/fingerprint.py:57-59 | `f"{system} {release}"`: the system name, one space, the release |
| Fingerprint.NormalizeComponent | app/fingerprint.py:64 | a normalised value is no longer than the input, holds no space and no upper-case letter, and its other characters come from the input |
| Fingerprint.NormalizeComponentFixes | app/fingerprint.py:64 | a value without spaces, upper-case letters or surrounding whitespace is its own normalisation |
| Fingerprint.MacAddressNormalized | app/fingerprint.py:64-69 | the MAC text is left unchanged by normalisation |
| Fingerprint.OsInfoNormalized | app/fingerprint.py:57-64 | the OS text normalises to the lower-cased, despaced system name followed directly by the lower-cased, despaced release |
| Fingerprint.NormalizeData | app/fingerprint.py:62-65 | the normalised string holds no space and no upper-case letter |
| Fingerprint.NormalizeDataSplits | app/fingerprint.py:62-65 | with no pipe in the readings, there is exactly one pipe between consecutive readings and the string splits back into the normalised readings in order |
| Fingerprint.GenerateMachineId | app/fingerprint.py:68-75 | the machine id is 64 characters from 0-9 and A-F |
| LicenseVerifier.ReasonText | public/license_verifier.py:128-220 | every reason string is non-empty; the ones for a missing member, a key load failure and a read failure end with the field name or the exception text |
| LicenseVerifier.VerifyLicenseHash | public/license_verifier.py:1-19 | the hash check passes exactly when `license_hash` is the string base64(SHA-256(UTF-8(canonical payload without it))) |
| LicenseVerifier.TamperingDetected | public/license_verifier.py:1-19 | two payloads with the same stored hash, one of which adds, drops or changes (in canonical form) another member, hash different bytes; so unless SHA-256 with base64 collides on those bytes, they cannot both pass |
| LicenseVerifier.VerifySignatureRaw | public/license_verifier.py:83-91 | true exactly when the signature is a string that base64-decodes and verifies over the canonical payload |
| LicenseVerifier.VerifyVersion | public/license_verifier.py:131-139 | ok exactly when `license_version` is present, an int (booleans included) and at most 1; otherwise manipulated |
| LicenseVerifier.FirstMissing | public/license_verifier.py:126-128 | no field is reported exactly when all are present |
| LicenseVerifier.FirstMissingAt | public/license_verifier.py:126-128 | the first absent field is the one reported |
| LicenseVerifier.StructureCheck | public/license_verifier.py:124-129 | the structure check either passes or reports manipulated |
| LicenseVerifier.StructureCheckMeaning | public/license_verifier.py:124-129 | the reason names the first required member missing, in the source's order |
| LicenseVerifier.StructureCheckPasses | public/license_verifier.py:124-129 | the structure check passes exactly when all seven required members are present |
| LicenseVerifier.VerifyStructure | public/license_verifier.py:124-129 | the loop returns the structure check's result |
| LicenseVerifier.VerifyIntegrity | public/license_verifier.py:141-144 | ok exactly when the hash check passes, else manipulated |
| LicenseVerifier.VerifySignature | public/license_verifier.py:146-153 | ok exactly when the key loads and the signature verifies; every failure, key loading included, is manipulated |
| LicenseVerifier.VerifyMachineBinding | public/license_verifier.py:155-159 | ok exactly when `machine_id` is this machine's id; a mismatch is invalid; a missing member raises `KeyError` |
| LicenseVerifier.VerifyTimeWindow | public/license_verifier.py:161-176 | a failure is manipulated, invalid or expired; manipulated with the bad-dates reason exactly when a date is missing or does not parse; it raises only `TypeError`, only when all three parse and one is offset-aware, and always when `not_before` is |
| LicenseVerifier.TimeWindowBounds | public/license_verifier.py:170-176 | with naive dates: ok exactly when not_before <= now, issued_at <= now and now <= expires_at; invalid before either start (not_before first); expired only strictly after expiry |
| LicenseVerifier.MarkerAfterWrite | public/license_verifier.py:120-121 | the marker file after a write: the new text when written, unchanged when `open` fails, empty when the write fails after `open(path, 'w')` truncated it |
| LicenseVerifier.MarkerHash | public/license_verifier.py:108 | the marker hash is 64 lower-case hexadecimal digits |
| LicenseVerifier.MarkerText | public/license_verifier.py:117-121 | the marker text splits on its pipe into the timestamp and this machine's hash of it, as long as the timestamp holds no pipe |
| LicenseVerifier.ClockRollbackCheck | public/license_verifier.py:94-113 | no marker file means no rollback |
| LicenseVerifier.MarkerRoundTrip | public/license_verifier.py:94-121 | after the marker for instant t is written, a later check reports a rollback exactly when its clock reads before t |
| LicenseVerifier.ForgedMarkerDetected | public/license_verifier.py:99-113 | any marker whose stripped contents split into a timestamp and a hash other than this machine's hash of that timestamp signals a rollback, whatever whitespace surrounds it and whether or not the timestamp parses |
| LicenseVerifier.MalformedMarkerIsRollback | public/license_verifier.py:99-113 | a stripped marker without exactly one pipe is a rollback, and so is one whose timestamp does not parse |
| LicenseVerifier.WellFormedMarkerDecides | public/license_verifier.py:99-113 | for any marker, hand-placed or written, that splits into a parsing timestamp and this machine's hash of it: a rollback exactly when the timestamp is offset-aware or the clock reads before it |
| LicenseVerifier.EmptyMarkerIsRollback | public/license_verifier.py:99-103 | an empty marker file is a rollback |
| LicenseVerifier.VerifyClockRollback | public/license_verifier.py:178-183 | ok exactly when no rollback is detected, else `clock_rollback` |
| LicenseVerifier.Payload | public/license_verifier.py:199 | the payload holds exactly the licence's members other than `signature` |
| LicenseVerifier.AsVerdict | public/license_verifier.py:194-215 | a failing check's verdict carries the check's own status; a returned verdict never comes from an exception |
| LicenseVerifier.CheckChain | public/license_verifier.py:192-220 | the chain returns status `valid` only with the all-passed reason |
| LicenseVerifier.Coordinate | public/license_verifier.py:185-220 | a licence that cannot be read is manipulated with the read error as reason; a document that is not an object raises `AttributeError` |
| LicenseVerifier.FailureIsNotValid | public/license_verifier.py:194-215 | a check that fails with a status other than valid does not give the valid verdict |
| LicenseVerifier.ValidIffAllChecksPass | public/license_verifier.py:192-220 | a licence object is valid exactly when all seven checks pass |
| LicenseVerifier.ValidNeedsReadableObject | public/license_verifier.py:187-193 | a valid verdict means the licence was read and is a JSON object |
| LicenseVerifier.OtherMachineIsInvalid | public/license_verifier.py:207-209 | a licence that passes the first four checks but names another machine is invalid with the mismatch reason |
| LicenseVerifier.RollbackAfterSuccess | public/license_verifier.py:213-217 | after a valid run at t has written its marker, the same licence checked with an earlier clock is a clock rollback |
| LicenseVerifier.EmptiedMarkerBlocks | public/license_verifier.py:213-220 | with an empty marker file, no licence is valid |
| LicenseVerifier.EmptiedMarkerIsRollback | public/license_verifier.py:213-215 | with an empty marker file, a licence that passes the first six checks is a clock rollback |
| LicenseVerifier.AwareDateRaises | public/license_verifier.py:170-173 | a licence that passes the first five checks and has an offset-aware `not_before` makes `verify_license` raise `TypeError` |
| LicenseVerifier.NotKeyError | public/license_verifier.py:194-215 | a check that does not raise `KeyError` does not give that verdict |
| LicenseVerifier.NoKeyErrorEscapes | public/license_verifier.py:196-209 | `verify_license` never raises `KeyError`: `machine_id` is read only after the structure check found it |
| LicenseVerifier.FirstFailureWins | public/license_verifier.py:192-215 | running the list, the first check that does not pass decides the verdict; valid when none fails |
| LicenseVerifier.ValidOnlyIfAllPass | public/license_verifier.py:192-215 | if no check can fail as valid, a valid run means every check passed |
| LicenseVerifier.ChecksNeverFailValid | public/license_verifier.py:192-215 | none of the seven checks fails with status valid |
| LicenseVerifier.ListValidIffAllPass | public/license_verifier.py:192-215 | the ordered list gives valid exactly when every check in it passes |
| LicenseVerifier.ChainIsFirstFailure | public/license_verifier.py:192-215 | the source's nested early-return chain equals first-failure-wins over the ordered list |
| LicenseVerifier.LookupSameMembers | public/license_verifier.py:199 | dicts with the same members answer every `get` alike |
| LicenseVerifier.ChecksIgnoreKeyOrder | public/license_verifier.py:16 | the hash and signature checks do not depend on the order of the licence's members |
| LicenseVerifier.LicenseVerifier.constructor | public/license_verifier.py:68 | a verifier starts with the given marker file contents |
| LicenseVerifier.LicenseVerifier.UpdateLastRun | public/license_verifier.py:116-121 | returns success exactly when the write went through; the marker becomes the timestamp of `now`, a pipe and its hash when written, stays as it was when `open` fails, and is empty when the write fails after truncation |
| LicenseVerifier.LicenseVerifier.RunChecks | public/license_verifier.py:192-215 | the chain of checks, with the machine id computed from the host, returns the nested chain's verdict for the current marker |
| LicenseVerifier.LicenseVerifier.VerifyLicense | public/license_verifier.py:185-220 | returns the coordinator's verdict for the old marker; the marker changes only when the verdict is valid, and then as the write outcome says |
| AppStateResolver.ExpiringMessage | public/app_state_resolver.py:104-118 | every expiry warning opens with "Tu membresía expira " and closes with "Contacta al proveedor para renovar." |
| AppStateResolver.ExpiringMessageTellsDays | public/app_state_resolver.py:104-118 | different day counts give different warnings |
| AppStateResolver.ExpiringMessageWord | public/app_state_resolver.py:104-118 | the word after the opening is "hoy" for day 0, "mañana" for day 1 and "en" otherwise |
| AppStateResolver.ExpiringMessageCount | public/app_state_resolver.py:114-118 | for other counts the warning holds `str(days)` right after "en " |
| AppStateResolver.DaysRemaining | public/app_state_resolver.py:33-49 | the whole days to expiry rounded down (negative exactly once expiry has passed), or -999 without a naive expiry |
| AppStateResolver.FeaturesOf | public/app_state_resolver.py:96 | `get("features", {})`: the empty object when missing, Python's `None` when `null`, the licence's value otherwise |
| AppStateResolver.AppStateFor | public/app_state_resolver.py:76-167 | a verifier exception escapes; otherwise the record is consistent (usage exactly while ACTIVE or EXPIRING_SOON, a warning exactly while EXPIRING_SOON, the message of its state), EXPIRED comes exactly from status expired, a usable state only from valid, a valid verdict whose second read fails or gives no object is the BLOCKED record, and the technical status is copied |
| AppStateResolver.ReasonNeverShown | public/app_state_resolver.py:76-158 | the verifier's reason never reaches the record: equal statuses resolve alike |
| AppStateResolver.BlockedLooksTheSame | public/app_state_resolver.py:127-158 | any two BLOCKED records differ at most in the technical status, and both carry the one generic message |
| AppStateResolver.HostileStatusBlocks | public/app_state_resolver.py:147-158 | invalid, manipulated and clock_rollback each give the blocked record |
| AppStateResolver.DetailsOnlyWhenValid | public/app_state_resolver.py:89-96 | days are set exactly when the licence was valid and its second read gave an object; features then too, unless the member is `null` |
| AppStateResolver.ExpiringSoonWindow | public/app_state_resolver.py:93-125 | a naive expiry e gives EXPIRING_SOON exactly when now <= e < now + 4 days and ACTIVE otherwise; day 0 and day 1 are the first and second 24 hours |
| AppStateResolver.UnreadableExpiryIsActive | public/app_state_resolver.py:92-125 | a valid licence whose second read has no usable expiry is ACTIVE with usage allowed and -999 days |
| AppStateResolver.ThresholdEdges | public/app_state_resolver.py:99-125 | days 0, 1 and 3 give EXPIRING_SOON with the matching warning; days 4 and -1 give ACTIVE with the ready message |
| AppStateResolver.UsageNeedsEveryCheck | public/app_state_resolver.py:76-125 | usage is allowed only when the licence was read as an object and all seven verifier checks passed |
| AppStateResolver.ShouldBlockApp | public/app_state_resolver.py:170-180 | on a record `get_app_state` built, `should_block_app` holds exactly in the EXPIRED and BLOCKED states |
| AppStateResolver.GetUserMessage | public/app_state_resolver.py:183-193 | on a record `get_app_state` built, the generic blocked message is shown exactly in the BLOCKED state |
| AppStateResolver.OnlyBlockedIsGeneric | public/app_state_resolver.py:104-158 | the ACTIVE, EXPIRED and every expiry message differ from the generic blocked one |
| AppStateResolver.GetFeatures | public/app_state_resolver.py:196-206 | `get("features") or {}`: the result is truthy or the empty object |
| AppStateResolver.UserMessageByState | public/app_state_resolver.py:183-193 | the message is fixed by the state: one each for ACTIVE, EXPIRED and BLOCKED, the warning for the recorded 0-3 days while EXPIRING_SOON |
| AppStateResolver.FeaturesOnlyWhenValid | public/app_state_resolver.py:196-206 | the features handed out are the licence's own when valid, re-read as an object and truthy; empty in every other case |
| AppStateResolver.AwareDateEscapes | public/app_state_resolver.py:76 | an offset-aware `not_before` makes `get_app_state` raise `TypeError` instead of returning a record |
| AppStateResolver.ResolveVerdict | public/app_state_resolver.py:78-167 | building the record field by field gives the resolver's record for the verdict |
| AppStateResolver.GetAppState | public/app_state_resolver.py:52-167 | returns the resolution of the verifier's verdict for the old marker, and leaves the marker as the verifier does |

## Left out

- Host input and output are inputs. These include the licence file, the public-key file, the marker file's contents and the clocks (`now` for the verifier, `later` for the resolver's day count). They also include `uuid.getnode`, `os.name`, the two subprocess queries and `platform`, gathered in `HostProbes`.
- `read_license_file`, `load_public_key`, `get_resource_path` and the data-directory set-up are not modelled: their results are `Loaded` values. The `__main__` blocks of all three files are not modelled either.
- Reading an existing marker file that then fails to open is not modelled; the source treats it as a rollback. The marker is `None` (no file) or its text, and a write that fails to open leaves it as it was.
- Which of the three ways a marker write ends is an input to `UpdateLastRun` (`WriteOutcome`); the operating-system reasons behind a failure are not modelled.
- LicenseVerifier.MarkerAfterWrite: a write that fails after `open(path, 'w')` is modelled as leaving the file empty. A failure during `write` or at close can instead leave a prefix of the marker text. Such a prefix lacks the pipe or the full hash, so it too is rejected as a rollback (public/license_verifier.py:101-110), but the model does not represent it.
- The source calls `generate_machine_id()` three times, in the binding check, the rollback check and the marker write. The model computes it once per run from one `HostProbes` value, since all three calls read the same host.
- SHA-256, base64, Ed25519, `datetime.fromisoformat` and `isoformat` are function parameters. Nothing is assumed about them except `IsoFormatSound`: `fromisoformat` reads back what `isoformat` wrote as a naive instant, the text holds no `|`, and it does not start with whitespace. It is a `requires` of the marker lemmas only.
- LicenseVerifier.TamperingDetected: SHA-256 followed by base64 is not proved collision-free, since it is a parameter. The lemma proves the hashed bytes differ, and concludes that both payloads cannot pass only under a `requires` that the hash keeps those two byte strings apart.
- A `features` member that is JSON `null` is stored as Python's `None`, which is also the record's unset value; `FeaturesOf` gives `None` for it, so the record cannot tell that case from "no features".
- Floating-point JSON numbers are not modelled (for example a `license_version` of `1.0`). Neither are `json.load` parsing or duplicate keys in the file text. A licence is a dictionary with distinct keys wherever a lemma needs it.
- Lone surrogates in JSON strings are not modelled. Python's `json.load` accepts a text such as `"\ud800"`, and `ensure_ascii` writes it back as `\ud800`. A Dafny `char` cannot hold an unpaired surrogate, so `Json.JStr` cannot represent that string.
- Text.Lower and Text.Upper map ASCII letters only, whereas Python's `lower`/`upper` are Unicode-aware. The fingerprint's readings are hardware names and hex numbers.
- Occurrences of `|` inside a probe reading are not modelled: `NormalizeDataSplits` assumes none.
- LicenseVerifier.VerifyMachineBinding: its `KeyError` branch cannot be reached after the structure check. It is modelled but never taken.
- AppStateResolver.GetFeatures: its own `ensures` states only that the result is truthy or the empty object. Which value it returns is stated by `FeaturesOnlyWhenValid`: the licence's own `features` when they are truthy on the valid path.
- The technical-status strings (`"valid"` …) and the state strings (`"ACTIVE"` …) are the enumerations `TechnicalStatus` and `AppState`. The state's initial `None` is not modelled, because every path replaces it.
- The periodic poller and cache, and the HTTP, CLI and transcription layers, are not part of this model.
- Concurrent runs racing on the marker file are not modelled.
