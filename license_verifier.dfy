/** The offline licence verifier (`public/license_verifier.py`): seven checks
    run in a fixed order, the first failure deciding the technical status, and
    the rollback marker `timestamp|hexhash` that is rewritten only after every
    check has passed. The licence file, the public-key file and the clock are
    inputs; the marker file is the `marker` field of `LicenseVerifier`. */
module LicenseVerifier {
  import opened Wrappers
  import opened Text
  import opened Json
  import opened Foreign
  import opened Fingerprint
  import CU = CanonicalUnique

  const SUPPORTED_LICENSE_VERSION: int := 1

  /** The members a licence must carry, in the order they are checked. */
  const REQUIRED_FIELDS: seq<string> :=
    ["machine_id", "issued_at", "not_before", "expires_at", "features", "license_hash", "signature"]

  /** The technical status `verify_license` reports. */
  datatype TechnicalStatus = Valid | Invalid | Expired | Manipulated | ClockRollback

  /** The Python exceptions that can escape a check. */
  datatype PyError = AttributeError | KeyError | TypeError

  /** Why a check failed; `ReasonText` gives the message the verifier
      reports for each. */
  datatype Reason =
    | MissingField(field: string)
    | VersionNotInt
    | VersionUnsupported
    | HashMismatch
    | KeyLoadFailed(message: string)
    | BadSignature
    | MachineMismatch
    | BadDates
    | NotBeforeInFuture
    | IssuedInFuture
    | LicenceExpired
    | ClockWentBack
    | ReadFailed(message: string)
    | AllPassed

  /** The reason strings `verify_license` returns, character for character.
      The messages for a missing member, a key that does not load and a
      licence that cannot be read end with the field name or the exception
      text. */
  function ReasonText(r: Reason): (t: string)
    ensures |t| > 0
    ensures r.MissingField? ==> |r.field| <= |t| && t[|t| - |r.field|..] == r.field
    ensures r.KeyLoadFailed? ==> |r.message| <= |t| && t[|t| - |r.message|..] == r.message
    ensures r.ReadFailed? ==> |r.message| <= |t| && t[|t| - |r.message|..] == r.message
  {
    match r
    case MissingField(field) => "Falta campo: " + field
    case VersionNotInt => "license_version no es entero"
    case VersionUnsupported => "Versión de licencia no soportada"
    case HashMismatch => "license_hash inválido o manipulado"
    case KeyLoadFailed(e) => "Error cargando public.key: " + e
    case BadSignature => "Firma digital inválida"
    case MachineMismatch => "machine_id no coincide"
    case BadDates => "Fechas inválidas en licencia"
    case NotBeforeInFuture => "Licencia aún no válida (not_before futuro)"
    case IssuedInFuture => "Licencia aún no válida (issued_at futuro)"
    case LicenceExpired => "Licencia expirada"
    case ClockWentBack => "Retroceso de reloj detectado"
    case ReadFailed(e) => "Error leyendo licencia: " + e
    case AllPassed => "Licencia válida"
  }

  /** What one check returns: `{'status': 'ok'}`, a failure dict with its
      status and reason, or an exception it does not catch. */
  datatype Check = Ok | Fail(status: TechnicalStatus, reason: Reason) | Raise(error: PyError)

  /** What `verify_license` gives its caller: the pair `(status, reason)`
      (the reason string being `ReasonText(reason)`), or an exception. */
  datatype Verdict = Returned(status: TechnicalStatus, reason: Reason) | Raised(error: PyError)

  const VALID: Verdict := Returned(Valid, AllPassed)

  // ---------------------------------------------------------------------
  // Hash and signature over the canonical payload

  /** The payload bytes the hash is computed over: the payload without its
      `license_hash`, canonically serialised, UTF-8 encoded. */
  function HashedBytes(payload: Entries): seq<byte> {
    Utf8Encode(Canonical(JObj(WithoutKey(payload, "license_hash"))))
  }

  /** The payload bytes the signature covers: the payload with its
      `license_hash`, canonically serialised, UTF-8 encoded. */
  function SignedBytes(payload: Entries): seq<byte> {
    Utf8Encode(Canonical(JObj(payload)))
  }

  /** `verify_license_hash(payload)`: false without a `license_hash`;
      otherwise whether the stored value is the string
      base64(SHA-256(canonical(payload minus license_hash))). */
  function VerifyLicenseHash(payload: Entries, p: Primitives): (r: bool)
    ensures r <==> Lookup(payload, "license_hash") == Some(JStr(p.b64encode(p.sha256(HashedBytes(payload)))))
  {
    if !HasKey(payload, "license_hash") then false
    else
      var licenseHash := Lookup(payload, "license_hash").value;
      var payloadNoHash := WithoutKey(payload, "license_hash");
      var canonical := Canonical(JObj(payloadNoHash));
      var calcHash := p.b64encode(p.sha256(Utf8Encode(canonical)));
      licenseHash == JStr(calcHash)
  }

  /** Changing, adding or removing any member other than `license_hash` so
      that its canonical form differs, while keeping the stored hash, changes
      the hashed bytes, and so is caught unless SHA-256 followed by base64
      collides on those two byte strings. */
  lemma TamperingDetected(a: Entries, b: Entries, k: string, p: Primitives)
    requires DistinctKeys(a) && DistinctKeys(b)
    requires Lookup(a, "license_hash") == Lookup(b, "license_hash")
    requires k != "license_hash"
    requires Lookup(a, k).Some? != Lookup(b, k).Some? ||
             (Lookup(a, k).Some? && Lookup(b, k).Some? &&
              Canonical(Lookup(a, k).value) != Canonical(Lookup(b, k).value))
    requires HashedBytes(a) != HashedBytes(b) ==>
             p.b64encode(p.sha256(HashedBytes(a))) != p.b64encode(p.sha256(HashedBytes(b)))
    ensures HashedBytes(a) != HashedBytes(b)
    ensures !(VerifyLicenseHash(a, p) && VerifyLicenseHash(b, p))
  {
    var wa, wb := WithoutKey(a, "license_hash"), WithoutKey(b, "license_hash");
    WithoutKeyDistinct(a, "license_hash");
    WithoutKeyDistinct(b, "license_hash");
    WithoutKeyLookup(a, "license_hash", k);
    WithoutKeyLookup(b, "license_hash", k);
    if HashedBytes(a) == HashedBytes(b) {
      CU.Utf8CanonicalInjective(JObj(wa), JObj(wb));
      CU.CanonicalDetermines(wa, wb, k);
    }
  }

  /** `verify_signature_raw(payload, signature_b64, key)`: true only when the
      signature is a string that base64-decodes and Ed25519-verifies over the
      canonical payload; any failure on the way gives false. */
  function VerifySignatureRaw(payload: Entries, signature: Json, key: PublicKey, p: Primitives): (r: bool)
    ensures r ==> signature.JStr? && p.b64decode(signature.s).Some?
    ensures r <==> signature.JStr? && p.b64decode(signature.s).Some? &&
                   p.ed25519Verify(key, p.b64decode(signature.s).value, SignedBytes(payload))
  {
    var payloadBytes := Utf8Encode(Canonical(JObj(payload)));
    match signature
    case JStr(text) =>
      (match p.b64decode(text)
       case Some(raw) => p.ed25519Verify(key, raw, payloadBytes)
       case None => false)
    case _ => false
  }

  // ---------------------------------------------------------------------
  // The seven checks

  /** `isinstance(v, int)` with the value: JSON integers, and the booleans,
      which Python counts as the ints 1 and 0. */
  function AsPyInt(v: Json): Option<int> {
    match v
    case JInt(i) => Some(i)
    case JBool(b) => Some(if b then 1 else 0)
    case _ => None
  }

  /** `verify_version(lic)`: ok exactly when `license_version` is present, not
      null, an int, and at most SUPPORTED_LICENSE_VERSION; manipulated
      otherwise. */
  function VerifyVersion(lic: Entries): (r: Check)
    ensures r.Ok? <==> Lookup(lic, "license_version").Some? &&
                       AsPyInt(Lookup(lic, "license_version").value).Some? &&
                       AsPyInt(Lookup(lic, "license_version").value).value <= SUPPORTED_LICENSE_VERSION
    ensures r.Ok? || (r.Fail? && r.status == Manipulated)
  {
    var licenseVersion := Lookup(lic, "license_version");
    if licenseVersion.None? || licenseVersion.value == JNull then
      Fail(Manipulated, MissingField("license_version"))
    else if AsPyInt(licenseVersion.value).None? then
      Fail(Manipulated, VersionNotInt)
    else if AsPyInt(licenseVersion.value).value > SUPPORTED_LICENSE_VERSION then
      Fail(Manipulated, VersionUnsupported)
    else Ok
  }

  /** The first of `fields` that `lic` lacks. */
  function FirstMissing(lic: Entries, fields: seq<string>): (r: Option<string>)
    ensures r.None? <==> forall i :: 0 <= i < |fields| ==> HasKey(lic, fields[i])
  {
    if |fields| == 0 then None
    else if !HasKey(lic, fields[0]) then Some(fields[0])
    else
      var r := FirstMissing(lic, fields[1..]);
      assert r.None? ==> forall i :: 0 <= i < |fields| ==> HasKey(lic, fields[i]) by {
        if r.None? {
          forall i | 0 <= i < |fields| ensures HasKey(lic, fields[i]) {
            if i > 0 { assert fields[i] == fields[1..][i - 1]; }
          }
        }
      }
      r
  }

  /** When field `i` is absent and all before it are present, field `i` is
      the one reported. */
  lemma {:induction false} FirstMissingAt(lic: Entries, fields: seq<string>, i: nat)
    requires i < |fields| && !HasKey(lic, fields[i])
    requires forall j :: 0 <= j < i ==> HasKey(lic, fields[j])
    ensures FirstMissing(lic, fields) == Some(fields[i])
  {
    if i > 0 {
      FirstMissingAt(lic, fields[1..], i - 1);
    }
  }

  /** The result `verify_structure(lic)` must produce: the first required
      member missing, if any, makes the licence manipulated. */
  function StructureCheck(lic: Entries): (r: Check)
    ensures r.Ok? || (r.Fail? && r.status == Manipulated)
  {
    match FirstMissing(lic, REQUIRED_FIELDS)
    case None => Ok
    case Some(field) => Fail(Manipulated, MissingField(field))
  }

  /** The structure check passes exactly when all seven required members are
      present; otherwise its reason names the first one missing. */
  lemma StructureCheckMeaning(lic: Entries, i: nat)
    requires i < |REQUIRED_FIELDS| && !HasKey(lic, REQUIRED_FIELDS[i])
    requires forall j :: 0 <= j < i ==> HasKey(lic, REQUIRED_FIELDS[j])
    ensures StructureCheck(lic) == Fail(Manipulated, MissingField(REQUIRED_FIELDS[i]))
  {
    FirstMissingAt(lic, REQUIRED_FIELDS, i);
  }

  lemma StructureCheckPasses(lic: Entries)
    ensures StructureCheck(lic).Ok? <==> forall f :: f in REQUIRED_FIELDS ==> HasKey(lic, f)
  {
  }

  /** `verify_structure(lic)`: the loop over the required fields, returning at
      the first one missing. */
  method VerifyStructure(lic: Entries) returns (r: Check)
    ensures r == StructureCheck(lic)
  {
    var i := 0;
    while i < |REQUIRED_FIELDS|
      invariant 0 <= i <= |REQUIRED_FIELDS|
      invariant forall j :: 0 <= j < i ==> HasKey(lic, REQUIRED_FIELDS[j])
    {
      var field := REQUIRED_FIELDS[i];
      if !HasKey(lic, field) {
        FirstMissingAt(lic, REQUIRED_FIELDS, i);
        return Fail(Manipulated, MissingField(field));
      }
      i := i + 1;
    }
    return Ok;
  }

  /** `verify_integrity(payload)`. */
  function VerifyIntegrity(payload: Entries, p: Primitives): (r: Check)
    ensures r.Ok? <==> VerifyLicenseHash(payload, p)
    ensures r.Ok? || (r.Fail? && r.status == Manipulated)
  {
    if !VerifyLicenseHash(payload, p) then Fail(Manipulated, HashMismatch) else Ok
  }

  /** `verify_signature(payload, signature, key_path)`; `key` is the outcome of
      `load_public_key`. Every way of failing, the key not loading included,
      is reported as manipulated. */
  function VerifySignature(payload: Entries, signature: Json, key: Loaded<PublicKey>, p: Primitives): (r: Check)
    ensures r.Ok? <==> key.Loaded? && VerifySignatureRaw(payload, signature, key.value, p)
    ensures r.Ok? || (r.Fail? && r.status == Manipulated)
  {
    match key
    case LoadError(e) => Fail(Manipulated, KeyLoadFailed(e))
    case Loaded(publicKey) =>
      if !VerifySignatureRaw(payload, signature, publicKey, p) then Fail(Manipulated, BadSignature) else Ok
  }

  /** `verify_machine_binding(payload)`, with `localId` the fingerprint
      `generate_machine_id()` gives on this machine: ok exactly when
      `machine_id` is that string; a mismatch is invalid (and a missing member
      raises, as `payload['machine_id']` does). */
  function VerifyMachineBinding(payload: Entries, localId: string): (r: Check)
    ensures r.Ok? <==> Lookup(payload, "machine_id") == Some(JStr(localId))
    ensures HasKey(payload, "machine_id") ==> r.Ok? || r == Fail(Invalid, MachineMismatch)
    ensures !HasKey(payload, "machine_id") ==> r == Raise(KeyError)
    ensures r == Ok || r == Fail(Invalid, MachineMismatch) || r == Raise(KeyError)
  {
    match Lookup(payload, "machine_id")
    case None => Raise(KeyError)
    case Some(machineId) =>
      if machineId != JStr(localId) then Fail(Invalid, MachineMismatch) else Ok
  }

  /** `datetime.fromisoformat(payload[k])`, `None` when it raises (the member
      is missing, is not a string, or does not parse). */
  function ParseDate(payload: Entries, k: string, p: Primitives): Option<DateTime> {
    match Lookup(payload, k)
    case Some(JStr(text)) => p.fromIsoFormat(text)
    case _ => None
  }

  /** `verify_time_window(payload, now)` for the naive clock reading `now`. A
      date that does not parse is manipulated; the license is invalid before
      `not_before` (checked first) or `issued_at`, and expired after
      `expires_at`. Comparing `now` with an offset-aware date raises. */
  function VerifyTimeWindow(payload: Entries, now: int, p: Primitives): (r: Check)
    ensures r.Fail? ==> r.status in {Manipulated, Invalid, Expired}
    ensures r == Fail(Manipulated, BadDates) <==>
      ParseDate(payload, "issued_at", p).None? || ParseDate(payload, "not_before", p).None? ||
      ParseDate(payload, "expires_at", p).None?
    ensures r.Raise? ==> r.error == TypeError
    ensures r.Raise? ==>
      var issued, notBefore, expires := ParseDate(payload, "issued_at", p), ParseDate(payload, "not_before", p),
                                        ParseDate(payload, "expires_at", p);
      issued.Some? && notBefore.Some? && expires.Some? &&
      (notBefore.value.aware || issued.value.aware || expires.value.aware)
    ensures ParseDate(payload, "issued_at", p).Some? && ParseDate(payload, "expires_at", p).Some? &&
            ParseDate(payload, "not_before", p).Some? && ParseDate(payload, "not_before", p).value.aware ==>
            r == Raise(TypeError)
  {
    var issued := ParseDate(payload, "issued_at", p);
    var notBefore := ParseDate(payload, "not_before", p);
    var expires := ParseDate(payload, "expires_at", p);
    if issued.None? || notBefore.None? || expires.None? then Fail(Manipulated, BadDates)
    else if notBefore.value.aware then Raise(TypeError)
    else if now < notBefore.value.micros then Fail(Invalid, NotBeforeInFuture)
    else if issued.value.aware then Raise(TypeError)
    else if now < issued.value.micros then Fail(Invalid, IssuedInFuture)
    else if expires.value.aware then Raise(TypeError)
    else if now > expires.value.micros then Fail(Expired, LicenceExpired)
    else Ok
  }

  /** With the three dates naive, the window is closed at both ends: ok
      exactly when not_before <= now, issued_at <= now and now <= expires_at;
      invalid when now is before either start; expired only when now is
      strictly after expires_at. */
  lemma TimeWindowBounds(payload: Entries, now: int, p: Primitives, issued: int, notBefore: int, expires: int)
    requires ParseDate(payload, "issued_at", p) == Some(DateTime(issued, false))
    requires ParseDate(payload, "not_before", p) == Some(DateTime(notBefore, false))
    requires ParseDate(payload, "expires_at", p) == Some(DateTime(expires, false))
    ensures VerifyTimeWindow(payload, now, p).Ok? <==> notBefore <= now && issued <= now && now <= expires
    ensures VerifyTimeWindow(payload, now, p).Ok? || VerifyTimeWindow(payload, now, p).Fail?
    ensures VerifyTimeWindow(payload, now, p) == Fail(Invalid, NotBeforeInFuture) <==> now < notBefore
    ensures VerifyTimeWindow(payload, now, p) == Fail(Invalid, IssuedInFuture) <==> notBefore <= now < issued
    ensures VerifyTimeWindow(payload, now, p) == Fail(Expired, LicenceExpired) <==> notBefore <= now && issued <= now && now > expires
  {
  }

  // ---------------------------------------------------------------------
  // The rollback marker

  /** How an attempt of `update_last_run` to write the marker ends: the text
      is written; `open(path, 'w')` itself fails and the file is left as it
      was; or the write fails after `open` has already emptied the file. */
  datatype WriteOutcome = Written | OpenFailed | FailedAfterTruncate

  /** The marker file after a write attempt of `text` that ended with `w`,
      starting from `before`. */
  function MarkerAfterWrite(before: Option<string>, w: WriteOutcome, text: string): (r: Option<string>)
    ensures w == Written ==> r == Some(text)
    ensures w == OpenFailed ==> r == before
    ensures w == FailedAfterTruncate ==> r == Some("")
  {
    match w
    case Written => Some(text)
    case OpenFailed => before
    case FailedAfterTruncate => Some("")
  }

  /** The hash stored beside a marker timestamp: hex SHA-256 of the timestamp
      followed by this machine's fingerprint. */
  function MarkerHash(timestamp: string, localId: string, p: Primitives): (r: string)
    ensures |r| == 64 && forall i :: 0 <= i < |r| ==> IsLowerHexDigit(r[i])
  {
    HexOfBytes(p.sha256(Utf8Encode(timestamp + localId)))
  }

  /** What `update_last_run(path, now)` writes: `f"{timestamp}|{hash}"`. As
      long as the timestamp holds no `|`, the text splits back into the
      timestamp and this machine's hash for it. */
  function MarkerText(now: int, localId: string, p: Primitives): (r: string)
    ensures '|' !in p.isoFormat(now) ==>
            Split(r, '|') == [p.isoFormat(now), MarkerHash(p.isoFormat(now), localId, p)]
  {
    var timestamp := p.isoFormat(now);
    var hash := MarkerHash(timestamp, localId, p);
    assert !IsLowerHexDigit('|');
    assert '|' !in hash;
    assert '|' !in timestamp ==> Split(timestamp + "|" + hash, '|') == [timestamp, hash] by {
      if '|' !in timestamp { SplitPair(timestamp, hash, '|'); }
    }
    timestamp + "|" + hash
  }

  /** `check_clock_rollback(path, now)` with the marker file's contents (`None`
      when the file does not exist). No marker passes; a marker that does not
      split into two `|` parts, whose timestamp does not parse, whose hash is
      not this machine's, or whose timestamp cannot be compared with `now`
      signals a rollback; otherwise a rollback is `now < last_run`. */
  function ClockRollbackCheck(marker: Option<string>, now: int, localId: string, p: Primitives): (r: bool)
    ensures marker.None? ==> !r
  {
    match marker
    case None => false
    case Some(text) =>
      var content := Strip(text);
      var parts := Split(content, '|');
      if |parts| != 2 then true
      else
        var lastRunStr := parts[0];
        var lastHash := parts[1];
        match p.fromIsoFormat(lastRunStr)
        case None => true
        case Some(lastRun) =>
          if lastHash != MarkerHash(lastRunStr, localId, p) then true
          else if lastRun.aware then true
          else now < lastRun.micros
  }

  /** Round trip of `update_last_run` and `check_clock_rollback` on one
      machine: after the marker for instant `t` is written, a later check
      reports a rollback exactly when its clock reads earlier than `t`. */
  lemma MarkerRoundTrip(t: int, now: int, localId: string, p: Primitives)
    requires IsoFormatSound(p, t)
    ensures ClockRollbackCheck(Some(MarkerText(t, localId, p)), now, localId, p) <==> now < t
  {
    var timestamp := p.isoFormat(t);
    var hash := MarkerHash(timestamp, localId, p);
    assert !IsLowerHexDigit('|');
    assert !IsSpace(hash[63]) && !IsLowerHexDigit('|');
    assert '|' !in hash;
    StripAround(timestamp, '|', hash);
    SplitPair(timestamp, hash, '|');
  }

  /** Any marker whose stripped contents split into a timestamp and a hash
      other than the one this machine computes for it (a hand-edited
      timestamp, say, with or without surrounding whitespace) signals a
      rollback, whether or not the timestamp parses. */
  lemma ForgedMarkerDetected(text: string, timestamp: string, forgedHash: string, now: int, localId: string,
                              p: Primitives)
    requires Split(Strip(text), '|') == [timestamp, forgedHash]
    requires forgedHash != MarkerHash(timestamp, localId, p)
    ensures ClockRollbackCheck(Some(text), now, localId, p)
  {
  }

  /** `verify_clock_rollback(now)`. */
  function VerifyClockRollback(marker: Option<string>, now: int, localId: string, p: Primitives): (r: Check)
    ensures r.Ok? <==> !ClockRollbackCheck(marker, now, localId, p)
    ensures r.Ok? || r == Fail(ClockRollback, ClockWentBack)
  {
    if ClockRollbackCheck(marker, now, localId, p) then Fail(ClockRollback, ClockWentBack) else Ok
  }

  /** The error paths of the marker check: a marker whose stripped contents
      do not hold exactly one `|` (so they do not split into a timestamp and
      a hash), or whose timestamp does not parse, signals a rollback. */
  lemma MalformedMarkerIsRollback(text: string, now: int, localId: string, p: Primitives)
    ensures Count(Strip(text), '|') != 1 ==> ClockRollbackCheck(Some(text), now, localId, p)
    ensures Count(Strip(text), '|') == 1 && p.fromIsoFormat(Split(Strip(text), '|')[0]).None? ==>
            ClockRollbackCheck(Some(text), now, localId, p)
  {
  }

  /** A marker that splits into a timestamp that parses and this machine's
      hash of it, whoever wrote it: an offset-aware timestamp is a rollback
      (comparing it with the naive clock raises, and the exception is
      caught), and a naive one is a rollback exactly when the clock reads
      earlier. */
  lemma WellFormedMarkerDecides(text: string, timestamp: string, hash: string, last: DateTime,
                                now: int, localId: string, p: Primitives)
    requires Split(Strip(text), '|') == [timestamp, hash]
    requires p.fromIsoFormat(timestamp) == Some(last)
    requires hash == MarkerHash(timestamp, localId, p)
    ensures ClockRollbackCheck(Some(text), now, localId, p) <==> last.aware || now < last.micros
  {
  }

  /** An empty marker file, which is what a write that fails after
      `open(path, 'w')` leaves behind, signals a rollback. */
  lemma EmptyMarkerIsRollback(now: int, localId: string, p: Primitives)
    ensures ClockRollbackCheck(Some(""), now, localId, p)
  {
    assert Strip("") == "";
    assert Count("", '|') == 0;
    MalformedMarkerIsRollback("", now, localId, p);
  }

  // ---------------------------------------------------------------------
  // The coordinator

  /** The licence without its `signature`: what the hash, signature,
      binding and window checks are given. */
  function Payload(lic: Entries): (r: Entries)
    ensures forall m :: m in r <==> m in lic && m.0 != "signature"
  {
    WithoutKey(lic, "signature")
  }

  /** `lic['signature']`; only consulted once the structure check has shown
      the member to be present. */
  function SignatureOf(lic: Entries): Json {
    match Lookup(lic, "signature")
    case Some(v) => v
    case None => JNull
  }

  /** The verdict one failing check gives: its status and reason, or the
      exception it raised. */
  function AsVerdict(c: Check): (r: Verdict)
    requires !c.Ok?
    ensures r.Returned? ==> c.Fail? && r.status == c.status
  {
    if c.Fail? then Returned(c.status, c.reason) else Raised(c.error)
  }

  /** The checks of `verify_license` on a licence object `lic`, in its order
      (version, structure, integrity hash, signature, machine binding, time
      window, clock rollback), stopping at the first that does not pass;
      `valid` when all pass. */
  function CheckChain(lic: Entries, key: Loaded<PublicKey>, localId: string, now: int,
                      marker: Option<string>, p: Primitives): (r: Verdict)
    ensures r.Returned? && r.status == Valid ==> r == VALID
  {
    var c0 := VerifyVersion(lic);
    if !c0.Ok? then AsVerdict(c0) else
    var c1 := StructureCheck(lic);
    if !c1.Ok? then AsVerdict(c1) else
    var payload := Payload(lic);
    var c2 := VerifyIntegrity(payload, p);
    if !c2.Ok? then AsVerdict(c2) else
    var c3 := VerifySignature(payload, SignatureOf(lic), key, p);
    if !c3.Ok? then AsVerdict(c3) else
    var c4 := VerifyMachineBinding(payload, localId);
    if !c4.Ok? then AsVerdict(c4) else
    var c5 := VerifyTimeWindow(payload, now, p);
    if !c5.Ok? then AsVerdict(c5) else
    var c6 := VerifyClockRollback(marker, now, localId, p);
    if !c6.Ok? then AsVerdict(c6) else
    VALID
  }

  /** `verify_license` as a function of its inputs: a licence that cannot be
      read is manipulated, one that is not a JSON object makes `lic.get`
      raise, and otherwise the chain of checks decides. */
  function Coordinate(licence: Loaded<Json>, key: Loaded<PublicKey>, localId: string, now: int,
                      marker: Option<string>, p: Primitives): (r: Verdict)
    ensures licence.LoadError? ==> r == Returned(Manipulated, ReadFailed(licence.message))
    ensures licence.Loaded? && !licence.value.JObj? ==> r == Raised(AttributeError)
  {
    match licence
    case LoadError(e) => Returned(Manipulated, ReadFailed(e))
    case Loaded(j) =>
      if !j.JObj? then Raised(AttributeError)
      else CheckChain(j.entries, key, localId, now, marker, p)
  }

  /** A check that fails with a status other than `valid` does not give
      `valid`; a check that passes is not asked. */
  lemma FailureIsNotValid(c: Check)
    ensures !c.Ok? && (c.Fail? ==> c.status != Valid) ==> AsVerdict(c) != VALID
  {
  }

  /** A readable licence object is `valid` exactly when all seven checks
      pass: no check fails with status `valid`, which only the end of the
      chain gives. */
  lemma ValidIffAllChecksPass(lic: Entries, key: Loaded<PublicKey>, localId: string, now: int,
                              marker: Option<string>, p: Primitives)
    ensures Coordinate(Loaded(JObj(lic)), key, localId, now, marker, p) == VALID <==>
            VerifyVersion(lic).Ok? &&
            StructureCheck(lic).Ok? &&
            VerifyIntegrity(Payload(lic), p).Ok? &&
            VerifySignature(Payload(lic), SignatureOf(lic), key, p).Ok? &&
            VerifyMachineBinding(Payload(lic), localId).Ok? &&
            VerifyTimeWindow(Payload(lic), now, p).Ok? &&
            VerifyClockRollback(marker, now, localId, p).Ok?
  {
    var payload := Payload(lic);
    FailureIsNotValid(VerifyVersion(lic));
    FailureIsNotValid(StructureCheck(lic));
    FailureIsNotValid(VerifyIntegrity(payload, p));
    FailureIsNotValid(VerifySignature(payload, SignatureOf(lic), key, p));
    FailureIsNotValid(VerifyMachineBinding(payload, localId));
    FailureIsNotValid(VerifyTimeWindow(payload, now, p));
    FailureIsNotValid(VerifyClockRollback(marker, now, localId, p));
  }

  /** Only a licence that could be read and is a JSON object can be
      `valid`. */
  lemma ValidNeedsReadableObject(licence: Loaded<Json>, key: Loaded<PublicKey>, localId: string, now: int,
                                 marker: Option<string>, p: Primitives)
    requires Coordinate(licence, key, localId, now, marker, p) == VALID
    ensures licence.Loaded? && licence.value.JObj?
  {
  }

  /** A well-hashed, well-signed licence (version, structure, hash and
      signature all pass) for another machine is invalid. */
  lemma OtherMachineIsInvalid(lic: Entries, key: Loaded<PublicKey>, localId: string, now: int,
                              marker: Option<string>, p: Primitives)
    requires VerifyVersion(lic).Ok? && StructureCheck(lic).Ok?
    requires VerifyIntegrity(Payload(lic), p).Ok? && VerifySignature(Payload(lic), SignatureOf(lic), key, p).Ok?
    requires Lookup(lic, "machine_id") != Some(JStr(localId))
    ensures Coordinate(Loaded(JObj(lic)), key, localId, now, marker, p) == Returned(Invalid, MachineMismatch)
  {
    StructureCheckPasses(lic);
    assert HasKey(lic, "machine_id") by { assert "machine_id" in REQUIRED_FIELDS; }
    WithoutKeyHasKey(lic, "signature", "machine_id");
    WithoutKeyLookup(lic, "signature", "machine_id");
  }

  /** After a successful verification at instant `t` has written its marker,
      verifying the same licence with the clock set back before `t` is a
      clock rollback, as long as the earlier clock still lies in the
      licence's window. */
  lemma RollbackAfterSuccess(lic: Entries, key: Loaded<PublicKey>, localId: string, t: int, earlier: int,
                             marker: Option<string>, p: Primitives)
    requires Coordinate(Loaded(JObj(lic)), key, localId, t, marker, p) == VALID
    requires IsoFormatSound(p, t)
    requires earlier < t
    requires VerifyTimeWindow(Payload(lic), earlier, p).Ok?
    ensures Coordinate(Loaded(JObj(lic)), key, localId, earlier, Some(MarkerText(t, localId, p)), p) ==
            Returned(ClockRollback, ClockWentBack)
  {
    ValidIffAllChecksPass(lic, key, localId, t, marker, p);
    MarkerRoundTrip(t, earlier, localId, p);
  }

  /** Once the marker file is empty, no licence is `valid` any more. Since
      the marker is rewritten only after a `valid` verdict, it stays
      empty. */
  lemma EmptiedMarkerBlocks(licence: Loaded<Json>, key: Loaded<PublicKey>, localId: string, now: int,
                            p: Primitives)
    ensures Coordinate(licence, key, localId, now, Some(""), p) != VALID
  {
    EmptyMarkerIsRollback(now, localId, p);
    if licence.Loaded? && licence.value.JObj? {
      ValidIffAllChecksPass(licence.value.entries, key, localId, now, Some(""), p);
    }
  }

  /** With the marker file empty, a licence that passes the first six checks
      is reported as a clock rollback. */
  lemma EmptiedMarkerIsRollback(lic: Entries, key: Loaded<PublicKey>, localId: string, now: int,
                                p: Primitives)
    requires VerifyVersion(lic).Ok? && StructureCheck(lic).Ok?
    requires VerifyIntegrity(Payload(lic), p).Ok? && VerifySignature(Payload(lic), SignatureOf(lic), key, p).Ok?
    requires VerifyMachineBinding(Payload(lic), localId).Ok? && VerifyTimeWindow(Payload(lic), now, p).Ok?
    ensures Coordinate(Loaded(JObj(lic)), key, localId, now, Some(""), p) == Returned(ClockRollback, ClockWentBack)
  {
    EmptyMarkerIsRollback(now, localId, p);
  }

  /** A licence whose checks pass up to the time window, with its three
      dates parsing and `not_before` offset-aware, makes `verify_license`
      raise the `TypeError` of comparing it with the naive clock. */
  lemma AwareDateRaises(lic: Entries, key: Loaded<PublicKey>, localId: string, now: int,
                        marker: Option<string>, p: Primitives)
    requires VerifyVersion(lic).Ok? && StructureCheck(lic).Ok?
    requires VerifyIntegrity(Payload(lic), p).Ok? && VerifySignature(Payload(lic), SignatureOf(lic), key, p).Ok?
    requires VerifyMachineBinding(Payload(lic), localId).Ok?
    requires ParseDate(Payload(lic), "issued_at", p).Some? && ParseDate(Payload(lic), "expires_at", p).Some?
    requires ParseDate(Payload(lic), "not_before", p).Some? && ParseDate(Payload(lic), "not_before", p).value.aware
    ensures Coordinate(Loaded(JObj(lic)), key, localId, now, marker, p) == Raised(TypeError)
  {
  }

  /** A check that does not raise `KeyError` does not give that verdict. */
  lemma NotKeyError(c: Check)
    ensures !c.Ok? && c != Raise(KeyError) ==> AsVerdict(c) != Raised(KeyError)
  {
  }

  /** `payload['machine_id']` is reached only after the structure check has
      found the member, so `verify_license` never raises `KeyError`. */
  lemma NoKeyErrorEscapes(licence: Loaded<Json>, key: Loaded<PublicKey>, localId: string, now: int,
                          marker: Option<string>, p: Primitives)
    ensures Coordinate(licence, key, localId, now, marker, p) != Raised(KeyError)
  {
    if licence.Loaded? && licence.value.JObj? {
      var lic := licence.value.entries;
      var payload := Payload(lic);
      if StructureCheck(lic).Ok? {
        StructureCheckPasses(lic);
        assert HasKey(lic, "machine_id") by { assert "machine_id" in REQUIRED_FIELDS; }
        WithoutKeyHasKey(lic, "signature", "machine_id");
      }
      NotKeyError(VerifyVersion(lic));
      NotKeyError(StructureCheck(lic));
      NotKeyError(VerifyIntegrity(payload, p));
      NotKeyError(VerifySignature(payload, SignatureOf(lic), key, p));
      NotKeyError(VerifyMachineBinding(payload, localId));
      NotKeyError(VerifyTimeWindow(payload, now, p));
      NotKeyError(VerifyClockRollback(marker, now, localId, p));
    }
  }

  // ---------------------------------------------------------------------
  // The same chain as an ordered list of checks

  /** Everything one run of the chain reads: the licence members, the
      outcome of loading the public key, this machine's fingerprint, the
      clock, the marker file's contents and the library calls. */
  datatype Inputs = Inputs(lic: Entries, key: Loaded<PublicKey>, localId: string, now: int,
                           marker: Option<string>, p: Primitives)

  /** The seven checks as a list, in the order the chain runs them. */
  const CHECKS: seq<Inputs -> Check> := [
    (x: Inputs) => VerifyVersion(x.lic),
    (x: Inputs) => StructureCheck(x.lic),
    (x: Inputs) => VerifyIntegrity(Payload(x.lic), x.p),
    (x: Inputs) => VerifySignature(Payload(x.lic), SignatureOf(x.lic), x.key, x.p),
    (x: Inputs) => VerifyMachineBinding(Payload(x.lic), x.localId),
    (x: Inputs) => VerifyTimeWindow(Payload(x.lic), x.now, x.p),
    (x: Inputs) => VerifyClockRollback(x.marker, x.now, x.localId, x.p)]

  /** The verdict of running `checks[from..]` in order on `x`: the first one
      that does not pass decides, and `valid` when they all pass. */
  function FirstFailure(checks: seq<Inputs -> Check>, x: Inputs, from: nat): Verdict
    requires from <= |checks|
    decreases |checks| - from
  {
    if from == |checks| then VALID
    else match checks[from](x)
      case Ok => FirstFailure(checks, x, from + 1)
      case Fail(s, reason) => Returned(s, reason)
      case Raise(e) => Raised(e)
  }

  /** One step of a list: a passing check hands over to the next, a failing
      one decides. */
  lemma FirstFailureStep(checks: seq<Inputs -> Check>, x: Inputs, from: nat)
    requires from < |checks|
    ensures checks[from](x).Ok? ==> FirstFailure(checks, x, from) == FirstFailure(checks, x, from + 1)
    ensures !checks[from](x).Ok? ==> FirstFailure(checks, x, from) == AsVerdict(checks[from](x))
  {
  }

  /** First failure wins: when checks from..k-1 pass and check k does not,
      the verdict is check k's; when every check passes it is `valid`. */
  lemma {:induction false} FirstFailureWins(checks: seq<Inputs -> Check>, x: Inputs, from: nat, k: nat)
    requires from <= k <= |checks|
    requires forall i :: from <= i < k ==> checks[i](x).Ok?
    ensures k == |checks| ==> FirstFailure(checks, x, from) == VALID
    ensures k < |checks| && !checks[k](x).Ok? ==> FirstFailure(checks, x, from) == AsVerdict(checks[k](x))
    decreases k - from
  {
    if from < k {
      FirstFailureWins(checks, x, from + 1, k);
    }
  }

  /** `valid` comes only out of a list whose every check passed, provided no
      check fails with status `valid` itself. */
  lemma {:induction false} ValidOnlyIfAllPass(checks: seq<Inputs -> Check>, x: Inputs, from: nat)
    requires from <= |checks|
    requires forall i :: from <= i < |checks| && checks[i](x).Fail? ==> checks[i](x).status != Valid
    requires FirstFailure(checks, x, from) == VALID
    ensures forall i :: from <= i < |checks| ==> checks[i](x).Ok?
    decreases |checks| - from
  {
    if from < |checks| {
      ValidOnlyIfAllPass(checks, x, from + 1);
    }
  }

  /** No check of `CHECKS` fails with status `valid`. */
  lemma ChecksNeverFailValid(x: Inputs)
    ensures forall i :: 0 <= i < |CHECKS| && CHECKS[i](x).Fail? ==> CHECKS[i](x).status != Valid
  {
  }

  /** Run as a list, the checks give `valid` exactly when every one of them
      passes. */
  lemma ListValidIffAllPass(x: Inputs)
    ensures FirstFailure(CHECKS, x, 0) == VALID <==> forall i :: 0 <= i < |CHECKS| ==> CHECKS[i](x).Ok?
  {
    if forall i :: 0 <= i < |CHECKS| ==> CHECKS[i](x).Ok? {
      FirstFailureWins(CHECKS, x, 0, |CHECKS|);
    }
    if FirstFailure(CHECKS, x, 0) == VALID {
      ChecksNeverFailValid(x);
      ValidOnlyIfAllPass(CHECKS, x, 0);
    }
  }

  /** The entries of `CHECKS`, one by one. */
  lemma CheckAt0(x: Inputs) ensures CHECKS[0](x) == VerifyVersion(x.lic) {}
  lemma CheckAt1(x: Inputs) ensures CHECKS[1](x) == StructureCheck(x.lic) {}
  lemma CheckAt2(x: Inputs) ensures CHECKS[2](x) == VerifyIntegrity(Payload(x.lic), x.p) {}
  lemma CheckAt3(x: Inputs) ensures CHECKS[3](x) == VerifySignature(Payload(x.lic), SignatureOf(x.lic), x.key, x.p) {}
  lemma CheckAt4(x: Inputs) ensures CHECKS[4](x) == VerifyMachineBinding(Payload(x.lic), x.localId) {}
  lemma CheckAt5(x: Inputs) ensures CHECKS[5](x) == VerifyTimeWindow(Payload(x.lic), x.now, x.p) {}
  lemma CheckAt6(x: Inputs) ensures CHECKS[6](x) == VerifyClockRollback(x.marker, x.now, x.localId, x.p) {}

  /** The chain is the list run in order: its verdict is that of the first
      check of `CHECKS` that does not pass. */
  lemma ChainIsFirstFailure(x: Inputs)
    ensures CheckChain(x.lic, x.key, x.localId, x.now, x.marker, x.p) == FirstFailure(CHECKS, x, 0)
  {
    CheckAt0(x); CheckAt1(x); CheckAt2(x); CheckAt3(x); CheckAt4(x); CheckAt5(x); CheckAt6(x);
    FirstFailureStep(CHECKS, x, 0); FirstFailureStep(CHECKS, x, 1); FirstFailureStep(CHECKS, x, 2);
    FirstFailureStep(CHECKS, x, 3); FirstFailureStep(CHECKS, x, 4); FirstFailureStep(CHECKS, x, 5);
    FirstFailureStep(CHECKS, x, 6);
    assert FirstFailure(CHECKS, x, |CHECKS|) == VALID;
  }

  // ---------------------------------------------------------------------
  // Key order does not matter

  /** Two dictionaries with the same members, each key once, agree on every
      lookup. */
  lemma LookupSameMembers(a: Entries, b: Entries, k: string)
    requires DistinctKeys(a) && DistinctKeys(b)
    requires forall q :: q in a <==> q in b
    ensures Lookup(a, k) == Lookup(b, k)
  {
    HasKeyMember(a, k);
    HasKeyMember(b, k);
    if Lookup(a, k).Some? {
      var va, vb := Lookup(a, k).value, Lookup(b, k).value;
      assert (k, va) in b && (k, vb) in b;
      var i :| 0 <= i < |b| && b[i] == (k, va);
      var j :| 0 <= j < |b| && b[j] == (k, vb);
      assert i == j;
    }
  }

  /** The integrity and signature checks do not depend on the order in which
      the payload's members happen to be stored. */
  lemma ChecksIgnoreKeyOrder(a: Entries, b: Entries, signature: Json, key: Loaded<PublicKey>, p: Primitives)
    requires DistinctKeys(a) && DistinctKeys(b)
    requires forall q :: q in a <==> q in b
    ensures VerifyIntegrity(a, p) == VerifyIntegrity(b, p)
    ensures VerifySignature(a, signature, key, p) == VerifySignature(b, signature, key, p)
  {
    CanonicalIgnoresKeyOrder(a, b);
    WithoutKeyDistinct(a, "license_hash");
    WithoutKeyDistinct(b, "license_hash");
    CanonicalIgnoresKeyOrder(WithoutKey(a, "license_hash"), WithoutKey(b, "license_hash"));
    LookupSameMembers(a, b, "license_hash");
    HasKeyMember(a, "license_hash");
    HasKeyMember(b, "license_hash");
  }

  // ---------------------------------------------------------------------
  // The verifier and its persistent state

  /** The verifier together with the one piece of state it owns: the
      contents of the `.last_run` marker file, `None` while the file does not
      exist. */
  class LicenseVerifier {
    var marker: Option<string>

    constructor (initial: Option<string>)
      ensures marker == initial
    {
      marker := initial;
    }

    /** `update_last_run(path, now)`: writes `timestamp|hash` for `now`.
        `w` is how the host lets the write end. Unless it is written, the
        call raises (`ok` is false); `open(path, 'w')` has emptied the file
        by the time `write` can fail, so only a failing `open` leaves the
        marker as it was. */
    method UpdateLastRun(now: int, h: HostProbes, p: Primitives, w: WriteOutcome) returns (ok: bool)
      modifies this
      ensures ok <==> w == Written
      ensures marker == MarkerAfterWrite(old(marker), w, MarkerText(now, GenerateMachineId(h, p), p))
    {
      var localId := GenerateMachineId(h, p);
      var timestamp := p.isoFormat(now);
      var hashVal := HexOfBytes(p.sha256(Utf8Encode(timestamp + localId)));
      if w == OpenFailed {
        return false;
      }
      marker := Some("");
      if w == FailedAfterTruncate {
        return false;
      }
      marker := Some(timestamp + "|" + hashVal);
      return true;
    }

    /** The coordinator inside `verify_license`, once the licence has been
        read as an object `lic`: the seven checks in order, returning the
        verdict of the first that fails and `valid` when all pass. The marker
        is read, not written. */
    method RunChecks(lic: Entries, key: Loaded<PublicKey>, h: HostProbes, now: int, p: Primitives)
      returns (v: Verdict)
      ensures v == CheckChain(lic, key, GenerateMachineId(h, p), now, marker, p)
    {
      var result := VerifyVersion(lic);
      if !result.Ok? {
        return AsVerdict(result);
      }
      result := VerifyStructure(lic);
      if !result.Ok? {
        return AsVerdict(result);
      }
      var payload := WithoutKey(lic, "signature");
      StructureCheckPasses(lic);
      assert "signature" in REQUIRED_FIELDS;
      var signature := Lookup(lic, "signature").value;
      result := VerifyIntegrity(payload, p);
      if !result.Ok? {
        return AsVerdict(result);
      }
      result := VerifySignature(payload, signature, key, p);
      if !result.Ok? {
        return AsVerdict(result);
      }
      var localId := GenerateMachineId(h, p);
      result := VerifyMachineBinding(payload, localId);
      if !result.Ok? {
        return AsVerdict(result);
      }
      result := VerifyTimeWindow(payload, now, p);
      if !result.Ok? {
        return AsVerdict(result);
      }
      result := VerifyClockRollback(marker, now, localId, p);
      if !result.Ok? {
        return AsVerdict(result);
      }
      return VALID;
    }

    /** `verify_license(path)`: reads the licence, runs the seven checks in
        order and returns at the first that fails; only when all pass does it
        try to rewrite the marker, and `valid` is returned however that
        write ends (`w`), its exception being swallowed. */
    method VerifyLicense(licence: Loaded<Json>, key: Loaded<PublicKey>, h: HostProbes, now: int,
                         w: WriteOutcome, p: Primitives) returns (v: Verdict)
      modifies this
      ensures v == Coordinate(licence, key, GenerateMachineId(h, p), now, old(marker), p)
      ensures marker ==
        if v == VALID then MarkerAfterWrite(old(marker), w, MarkerText(now, GenerateMachineId(h, p), p))
        else old(marker)
    {
      if licence.LoadError? {
        return Returned(Manipulated, ReadFailed(licence.message));
      }
      var doc := licence.value;
      if !doc.JObj? {
        return Raised(AttributeError);
      }
      v := RunChecks(doc.entries, key, h, now, p);
      if v == VALID {
        var written := UpdateLastRun(now, h, p, w);
      }
    }
  }
}
