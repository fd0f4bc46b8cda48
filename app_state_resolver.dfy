/** The user-facing state (`public/app_state_resolver.py`): the technical
    status the verifier reports is turned into one of four application
    states, with whether the application may be used, whether a warning is
    shown, the message for the user and, for a valid licence only, the days
    left and the enabled features. A failing verifier never explains itself
    to the user: every hostile or suspicious status gets the same message. */
module AppStateResolver {
  import opened Wrappers
  import opened Text
  import opened Json
  import opened Foreign
  import opened Fingerprint
  import LV = LicenseVerifier

  /** The class `AppState`: the states `ACTIVE`, `EXPIRING_SOON`, `EXPIRED`
      and `BLOCKED`. */
  datatype AppState = Active | ExpiringSoon | Expired | Blocked

  /** Days before expiry from which the application warns. */
  const EXPIRING_THRESHOLD_DAYS: int := 3

  /** What `calculate_days_remaining` returns when it cannot compute. */
  const DAYS_ERROR: int := -999

  const MICROS_PER_DAY: int := 86_400_000_000

  const ACTIVE_MESSAGE: string := "Aplicación lista"
  const EXPIRED_MESSAGE: string :=
    "Tu membresía ha expirado. Contacta al proveedor para renovar y continuar usando la aplicación."
  const BLOCKED_MESSAGE: string :=
    "No fue posible validar el estado de la aplicación. Contacta al proveedor."

  /** The opening and the closing sentence every expiry warning shares. */
  const EXPIRY_HEAD: string := "Tu membresía expira "
  const EXPIRY_TAIL: string := "Contacta al proveedor para renovar."

  /** The warning shown while the licence is about to expire: "today" for
      day 0, "tomorrow" for day 1, and the count in days otherwise. Every
      warning opens with the same words and closes asking to renew. */
  function ExpiringMessage(days: int): (r: string)
    ensures |EXPIRY_HEAD| + |EXPIRY_TAIL| < |r|
    ensures r[..|EXPIRY_HEAD|] == EXPIRY_HEAD && r[|r| - |EXPIRY_TAIL|..] == EXPIRY_TAIL
  {
    if days == 0 then EXPIRY_HEAD + "hoy. " + EXPIRY_TAIL
    else if days == 1 then EXPIRY_HEAD + "mañana. " + EXPIRY_TAIL
    else EXPIRY_HEAD + "en " + Decimal(days) + " días. " + EXPIRY_TAIL
  }

  /** The warning tells the days apart: different day counts give different
      messages. */
  lemma ExpiringMessageTellsDays(d1: int, d2: int)
    requires ExpiringMessage(d1) == ExpiringMessage(d2)
    ensures d1 == d2
  {
    ExpiringMessageWord(d1);
    ExpiringMessageWord(d2);
    if d1 != 0 && d1 != 1 {
      ExpiringMessageCount(d1);
      ExpiringMessageCount(d2);
      DecimalInjective(d1, d2);
    }
  }

  /** The word after the opening: `h` of "hoy", `m` of "mañana", `e` of "en". */
  lemma ExpiringMessageWord(d: int)
    ensures ExpiringMessage(d)[|EXPIRY_HEAD|] == if d == 0 then 'h' else if d == 1 then 'm' else 'e'
  {
    var h := |EXPIRY_HEAD|;
    if d == 0 {
      assert (EXPIRY_HEAD + "hoy. " + EXPIRY_TAIL)[h] == "hoy. "[0];
    } else if d == 1 {
      assert (EXPIRY_HEAD + "mañana. " + EXPIRY_TAIL)[h] == "mañana. "[0];
    } else {
      assert (EXPIRY_HEAD + "en " + Decimal(d) + " días. " + EXPIRY_TAIL)[h] == "en "[0];
    }
  }

  /** For a count other than 0 and 1, the message is as long as its number
      fixes and holds that number after "en ". */
  lemma ExpiringMessageCount(d: int)
    requires d != 0 && d != 1
    ensures var m, h, n := ExpiringMessage(d), |EXPIRY_HEAD| + 3, |Decimal(d)|;
            |m| == h + n + 7 + |EXPIRY_TAIL| && m[h..h + n] == Decimal(d)
  {
    var a, t := EXPIRY_HEAD + "en ", Decimal(d);
    var m := ExpiringMessage(d);
    assert m == a + t + " días. " + EXPIRY_TAIL;
    assert m[..|a| + |t|] == a + t;
    assert (a + t)[|a|..] == t;
  }

  // ---------------------------------------------------------------------
  // calculate_days_remaining

  /** The expiry instant `datetime.fromisoformat(expires_at)` gives when it is
      a naive value: `None` when the member is missing or not a string (a
      `TypeError`), when the text does not parse, and when it parses to an
      offset-aware value (subtracting the naive clock from it raises). */
  function NaiveExpiry(expiresAt: Option<Json>, p: Primitives): Option<int> {
    match expiresAt
    case Some(JStr(s)) =>
      (match p.fromIsoFormat(s)
       case Some(d) => if d.aware then None else Some(d.micros)
       case None => None)
    case _ => None
  }

  /** `calculate_days_remaining(expires_at)` at the clock reading `now`:
      `(expires_at - now).days`, which Python rounds towards minus infinity,
      or -999 when any step raises. So the days remaining are the whole days
      from `now` to the expiry, rounded down, negative exactly when the
      expiry has passed, and the error value without a naive expiry. */
  function DaysRemaining(expiresAt: Option<Json>, now: int, p: Primitives): (d: int)
    ensures NaiveExpiry(expiresAt, p).None? ==> d == DAYS_ERROR
    ensures NaiveExpiry(expiresAt, p).Some? ==>
      var e := NaiveExpiry(expiresAt, p).value;
      d * MICROS_PER_DAY <= e - now < (d + 1) * MICROS_PER_DAY &&
      (d >= 0 <==> now <= e)
  {
    match NaiveExpiry(expiresAt, p)
    case Some(e) => (e - now) / MICROS_PER_DAY
    case None => DAYS_ERROR
  }

  // ---------------------------------------------------------------------
  // get_app_state

  /** The dictionary `get_app_state` returns; `technicalStatus` is the status
      the verifier reported. */
  datatype AppStateRecord = AppStateRecord(
    state: AppState,
    allowUsage: bool,
    showWarning: bool,
    userMessage: string,
    daysRemaining: Option<int>,
    features: Option<Json>,
    technicalStatus: LV.TechnicalStatus)

  /** What every record `get_app_state` builds satisfies: usage is allowed
      exactly in the two usable states, a warning is shown exactly while
      expiring, and the message is the one of the state (the warning for the
      recorded 0-3 days while expiring). */
  predicate Consistent(rec: AppStateRecord) {
    (rec.allowUsage <==> rec.state in {Active, ExpiringSoon}) &&
    (rec.showWarning <==> rec.state == ExpiringSoon) &&
    (rec.state == Active ==> rec.userMessage == ACTIVE_MESSAGE) &&
    (rec.state == Expired ==> rec.userMessage == EXPIRED_MESSAGE) &&
    (rec.state == Blocked ==> rec.userMessage == BLOCKED_MESSAGE) &&
    (rec.state == ExpiringSoon ==>
       rec.daysRemaining.Some? && 0 <= rec.daysRemaining.value <= EXPIRING_THRESHOLD_DAYS &&
       rec.userMessage == ExpiringMessage(rec.daysRemaining.value))
  }

  /** `get_app_state` returns the record, or lets an exception of
      `verify_license` escape. */
  datatype Outcome = Resolved(record: AppStateRecord) | Escaped(error: LV.PyError)

  /** The blocked record: no usage, no warning, the one generic message. */
  function BlockedRecord(status: LV.TechnicalStatus): AppStateRecord {
    AppStateRecord(Blocked, false, false, BLOCKED_MESSAGE, None, None, status)
  }

  /** What `result["features"] = license_data.get("features", {})` stores:
      the empty object when the member is missing, Python's `None` (the same
      as the record's unset value) when it is JSON `null`, and the member's
      value otherwise. */
  function FeaturesOf(licenseData: Entries): (f: Option<Json>)
    ensures !HasKey(licenseData, "features") ==> f == Some(JObj([]))
    ensures Lookup(licenseData, "features") == Some(JNull) ==> f == None
    ensures f.Some? && f != Some(JObj([])) ==> Lookup(licenseData, "features") == f
  {
    match Lookup(licenseData, "features")
    case Some(JNull) => None
    case Some(f) => Some(f)
    case None => Some(JObj([]))
  }

  /** The valid branch: the licence is read a second time (`reread`) and its
      `expires_at` measured against the clock reading `now`. A read that
      fails, or a document that is not an object (`.get` raises), is caught
      and blocks. */
  function ResolveValid(reread: Loaded<Json>, now: int, p: Primitives): AppStateRecord {
    match reread
    case LoadError(_) => BlockedRecord(LV.Valid)
    case Loaded(doc) =>
      if !doc.JObj? then BlockedRecord(LV.Valid)
      else
        var days := DaysRemaining(Lookup(doc.entries, "expires_at"), now, p);
        var features := FeaturesOf(doc.entries);
        if 0 <= days <= EXPIRING_THRESHOLD_DAYS then
          AppStateRecord(ExpiringSoon, true, true, ExpiringMessage(days), Some(days), features, LV.Valid)
        else
          AppStateRecord(Active, true, false, ACTIVE_MESSAGE, Some(days), features, LV.Valid)
  }

  /** What `get_app_state` returns for the verifier's verdict `v`: valid
      leads to ACTIVE or EXPIRING_SOON (or BLOCKED when the second read
      fails or gives no object), expired to EXPIRED, every other status to
      BLOCKED. Usage is allowed exactly in the two usable states, a warning
      is shown exactly while expiring, and the technical status is passed
      through. */
  function AppStateFor(v: LV.Verdict, reread: Loaded<Json>, now: int, p: Primitives): (o: Outcome)
    ensures o.Resolved? <==> v.Returned?
    ensures o.Escaped? ==> o.error == v.error
    ensures o.Resolved? ==> o.record.technicalStatus == v.status
    ensures o.Resolved? ==> Consistent(o.record)
    ensures o.Resolved? ==> (o.record.state == Expired <==> v.status == LV.Expired)
    ensures o.Resolved? && o.record.state in {Active, ExpiringSoon} ==> v.status == LV.Valid
    ensures v.Returned? && v.status == LV.Valid && !(reread.Loaded? && reread.value.JObj?) ==>
            o == Resolved(BlockedRecord(LV.Valid))
  {
    match v
    case Raised(e) => Escaped(e)
    case Returned(status, _) =>
      if status == LV.Valid then Resolved(ResolveValid(reread, now, p))
      else if status == LV.Expired then
        Resolved(AppStateRecord(Expired, false, false, EXPIRED_MESSAGE, None, None, LV.Expired))
      else Resolved(BlockedRecord(status))
  }

  /** The reason the verifier gives never reaches the record: two verdicts
      with the same status resolve alike. */
  lemma ReasonNeverShown(status: LV.TechnicalStatus, r1: LV.Reason, r2: LV.Reason,
                         reread: Loaded<Json>, now: int, p: Primitives)
    ensures AppStateFor(LV.Returned(status, r1), reread, now, p) == AppStateFor(LV.Returned(status, r2), reread, now, p)
  {
  }

  /** Every blocked record shows the user the same thing, whatever blocked
      it: the generic message, no usage, no warning, no days, no features.
      Only the technical status, kept for the logs, tells them apart. */
  lemma BlockedLooksTheSame(v1: LV.Verdict, reread1: Loaded<Json>, now1: int,
                            v2: LV.Verdict, reread2: Loaded<Json>, now2: int, p: Primitives)
    requires AppStateFor(v1, reread1, now1, p).Resolved? && AppStateFor(v1, reread1, now1, p).record.state == Blocked
    requires AppStateFor(v2, reread2, now2, p).Resolved? && AppStateFor(v2, reread2, now2, p).record.state == Blocked
    ensures var a := AppStateFor(v1, reread1, now1, p).record;
            var b := AppStateFor(v2, reread2, now2, p).record;
            a.(technicalStatus := LV.Invalid) == b.(technicalStatus := LV.Invalid) &&
            a.userMessage == BLOCKED_MESSAGE
  {
  }

  /** Every hostile or suspicious status blocks. */
  lemma HostileStatusBlocks(v: LV.Verdict, reread: Loaded<Json>, now: int, p: Primitives)
    requires v.Returned? && v.status in {LV.Invalid, LV.Manipulated, LV.ClockRollback}
    ensures AppStateFor(v, reread, now, p) == Resolved(BlockedRecord(v.status))
  {
  }

  /** The days remaining are filled in exactly when the licence was valid
      and its second read gave an object; the features only then, unless the
      licence's `features` member is `null`. */
  lemma DetailsOnlyWhenValid(v: LV.Verdict, reread: Loaded<Json>, now: int, p: Primitives)
    requires AppStateFor(v, reread, now, p).Resolved?
    ensures var rec := AppStateFor(v, reread, now, p).record;
            (rec.daysRemaining.Some? <==> v.status == LV.Valid && reread.Loaded? && reread.value.JObj?) &&
            (rec.features.Some? <==>
               rec.daysRemaining.Some? && Lookup(reread.value.entries, "features") != Some(JNull))
  {
  }

  /** A valid licence whose expiry parses as a naive instant `e` is
      EXPIRING_SOON exactly when `e` lies in the four days starting at the
      clock reading, and ACTIVE otherwise, including after `e` has passed.
      The day count is 0 during the first of those days and 1 during the
      second. */
  lemma ExpiringSoonWindow(reason: LV.Reason, es: Entries, now: int, p: Primitives)
    requires NaiveExpiry(Lookup(es, "expires_at"), p).Some?
    ensures var e := NaiveExpiry(Lookup(es, "expires_at"), p).value;
            var rec := AppStateFor(LV.Returned(LV.Valid, reason), Loaded(JObj(es)), now, p).record;
            (rec.state == ExpiringSoon <==> now <= e < now + (EXPIRING_THRESHOLD_DAYS + 1) * MICROS_PER_DAY) &&
            (rec.state == Active <==> e < now || now + (EXPIRING_THRESHOLD_DAYS + 1) * MICROS_PER_DAY <= e) &&
            (now <= e < now + MICROS_PER_DAY ==> rec.daysRemaining == Some(0)) &&
            (now + MICROS_PER_DAY <= e < now + 2 * MICROS_PER_DAY ==> rec.daysRemaining == Some(1))
  {
  }

  /** As written, a valid licence whose second read has no usable
      `expires_at` (missing, not a string, unparsable or offset-aware) gets
      the error value -999 as its days and is ACTIVE with full usage. */
  lemma UnreadableExpiryIsActive(reason: LV.Reason, es: Entries, now: int, p: Primitives)
    requires NaiveExpiry(Lookup(es, "expires_at"), p).None?
    ensures var rec := AppStateFor(LV.Returned(LV.Valid, reason), Loaded(JObj(es)), now, p).record;
            rec.state == Active && rec.allowUsage && rec.daysRemaining == Some(DAYS_ERROR)
  {
  }

  /** The day counts at the edges of the warning band: 0, 1 and 3 warn, 4
      and -1 do not. */
  lemma ThresholdEdges(reason: LV.Reason, es: Entries, now: int, p: Primitives)
    ensures var days := DaysRemaining(Lookup(es, "expires_at"), now, p);
            var rec := AppStateFor(LV.Returned(LV.Valid, reason), Loaded(JObj(es)), now, p).record;
            (days == 0 ==> rec.state == ExpiringSoon && rec.userMessage == ExpiringMessage(0)) &&
            (days == 1 ==> rec.state == ExpiringSoon && rec.userMessage == ExpiringMessage(1)) &&
            (days == 3 ==> rec.state == ExpiringSoon && rec.userMessage == ExpiringMessage(3)) &&
            (days == 4 ==> rec.state == Active && rec.userMessage == ACTIVE_MESSAGE) &&
            (days == -1 ==> rec.state == Active && rec.userMessage == ACTIVE_MESSAGE)
  {
  }

  /** The application may be used only when the verifier read the licence
      as an object and all seven of its checks passed. */
  lemma UsageNeedsEveryCheck(licence: Loaded<Json>, key: Loaded<PublicKey>, localId: string, now: int,
                             marker: Option<string>, reread: Loaded<Json>, later: int, p: Primitives)
    requires AppStateFor(LV.Coordinate(licence, key, localId, now, marker, p), reread, later, p).Resolved?
    requires AppStateFor(LV.Coordinate(licence, key, localId, now, marker, p), reread, later, p).record.allowUsage
    ensures licence.Loaded? && licence.value.JObj?
    ensures var lic := licence.value.entries;
            LV.VerifyVersion(lic).Ok? &&
            LV.StructureCheck(lic).Ok? &&
            LV.VerifyIntegrity(LV.Payload(lic), p).Ok? &&
            LV.VerifySignature(LV.Payload(lic), LV.SignatureOf(lic), key, p).Ok? &&
            LV.VerifyMachineBinding(LV.Payload(lic), localId).Ok? &&
            LV.VerifyTimeWindow(LV.Payload(lic), now, p).Ok? &&
            LV.VerifyClockRollback(marker, now, localId, p).Ok?
  {
    LV.ValidNeedsReadableObject(licence, key, localId, now, marker, p);
    LV.ValidIffAllChecksPass(licence.value.entries, key, localId, now, marker, p);
  }

  // ---------------------------------------------------------------------
  // The accessors

  /** `should_block_app(app_state)`: on a record `get_app_state` built, the
      application is blocked exactly in the EXPIRED and BLOCKED states. */
  function ShouldBlockApp(rec: AppStateRecord): (b: bool)
    ensures Consistent(rec) ==> (b <==> rec.state in {Expired, Blocked})
  {
    !rec.allowUsage
  }

  /** `get_user_message(app_state)`: on a record `get_app_state` built, the
      generic blocked message is shown exactly when the state is BLOCKED. */
  function GetUserMessage(rec: AppStateRecord): (m: string)
    ensures Consistent(rec) ==> (m == BLOCKED_MESSAGE <==> rec.state == Blocked)
  {
    OnlyBlockedIsGeneric();
    rec.userMessage
  }

  /** No state other than BLOCKED shows the generic message: the messages
      of ACTIVE, EXPIRED and of every expiry warning differ from it, as
      their lengths show. */
  lemma OnlyBlockedIsGeneric()
    ensures ACTIVE_MESSAGE != BLOCKED_MESSAGE && EXPIRED_MESSAGE != BLOCKED_MESSAGE
    ensures forall d :: 0 <= d <= EXPIRING_THRESHOLD_DAYS ==> ExpiringMessage(d) != BLOCKED_MESSAGE
  {
    assert |BLOCKED_MESSAGE| == 73 && |ACTIVE_MESSAGE| == 16 && |EXPIRED_MESSAGE| == 94;
    forall d | 0 <= d <= EXPIRING_THRESHOLD_DAYS
      ensures ExpiringMessage(d) != BLOCKED_MESSAGE
    {
      assert d == 0 || d == 1 || d == 2 || d == 3;
      assert |ExpiringMessage(0)| == 60 && |ExpiringMessage(1)| == 63;
      assert |ExpiringMessage(2)| == 66 && |ExpiringMessage(3)| == 66;
    }
  }

  /** `get_features(app_state)`: `app_state.get("features") or {}`. */
  function GetFeatures(rec: AppStateRecord): (f: Json)
    ensures Truthy(f) || f == JObj([])
  {
    match rec.features
    case Some(j) => if Truthy(j) then j else JObj([])
    case None => JObj([])
  }

  /** The message the user is shown is fixed by the state: one message each
      for ACTIVE, EXPIRED and BLOCKED, and the expiry warning for the days
      recorded while EXPIRING_SOON. */
  lemma UserMessageByState(v: LV.Verdict, reread: Loaded<Json>, now: int, p: Primitives)
    requires AppStateFor(v, reread, now, p).Resolved?
    ensures var rec := AppStateFor(v, reread, now, p).record;
            (rec.state == Active ==> GetUserMessage(rec) == ACTIVE_MESSAGE) &&
            (rec.state == Expired ==> GetUserMessage(rec) == EXPIRED_MESSAGE) &&
            (rec.state == Blocked ==> GetUserMessage(rec) == BLOCKED_MESSAGE) &&
            (rec.state == ExpiringSoon ==>
               (rec.daysRemaining.Some? &&
                0 <= rec.daysRemaining.value <= EXPIRING_THRESHOLD_DAYS &&
                GetUserMessage(rec) == ExpiringMessage(rec.daysRemaining.value)))
  {
  }

  /** The features handed to the application are the licence's own when the
      licence is valid, its second read gives an object and the features
      member is truthy; in every other case they are empty. */
  lemma FeaturesOnlyWhenValid(v: LV.Verdict, reread: Loaded<Json>, now: int, p: Primitives)
    requires AppStateFor(v, reread, now, p).Resolved?
    ensures var f := GetFeatures(AppStateFor(v, reread, now, p).record);
            if v.status == LV.Valid && reread.Loaded? && reread.value.JObj? &&
               Lookup(reread.value.entries, "features").Some? &&
               Truthy(Lookup(reread.value.entries, "features").value)
            then f == Lookup(reread.value.entries, "features").value
            else f == JObj([])
  {
  }

  /** A licence whose dates make the verifier compare an offset-aware
      `not_before` with the naive clock makes `get_app_state` raise
      `TypeError` instead of returning a record. */
  lemma AwareDateEscapes(lic: Entries, key: Loaded<PublicKey>, localId: string, now: int,
                         marker: Option<string>, reread: Loaded<Json>, later: int, p: Primitives)
    requires LV.VerifyVersion(lic).Ok? && LV.StructureCheck(lic).Ok?
    requires LV.VerifyIntegrity(LV.Payload(lic), p).Ok? && LV.VerifySignature(LV.Payload(lic), LV.SignatureOf(lic), key, p).Ok?
    requires LV.VerifyMachineBinding(LV.Payload(lic), localId).Ok?
    requires LV.ParseDate(LV.Payload(lic), "issued_at", p).Some? && LV.ParseDate(LV.Payload(lic), "expires_at", p).Some?
    requires LV.ParseDate(LV.Payload(lic), "not_before", p).Some? && LV.ParseDate(LV.Payload(lic), "not_before", p).value.aware
    ensures AppStateFor(LV.Coordinate(Loaded(JObj(lic)), key, localId, now, marker, p), reread, later, p) ==
            Escaped(LV.TypeError)
  {
    LV.AwareDateRaises(lic, key, localId, now, marker, p);
  }

  /** The body of `get_app_state` after the verifier has answered `verdict`:
      the record starts with no usage, no warning, an empty message and no
      days or features, and each branch fills in its fields. `reread` is
      what the second read of the licence gives and `now` the clock reading
      taken while counting the days. */
  method ResolveVerdict(verdict: LV.Verdict, reread: Loaded<Json>, now: int, p: Primitives)
    returns (o: Outcome)
    ensures o == AppStateFor(verdict, reread, now, p)
  {
    if verdict.Raised? {
      return Escaped(verdict.error);
    }
    var technicalStatus := verdict.status;
    var state: AppState;
    var allowUsage := false;
    var showWarning := false;
    var userMessage := "";
    var daysRemaining: Option<int> := None;
    var features: Option<Json> := None;

    if technicalStatus == LV.Valid {
      if reread.Loaded? && reread.value.JObj? {
        var licenseData := reread.value.entries;
        var expiresAt := Lookup(licenseData, "expires_at");
        var days := DaysRemaining(expiresAt, now, p);
        daysRemaining := Some(days);
        features := FeaturesOf(licenseData);
        if 0 <= days <= EXPIRING_THRESHOLD_DAYS {
          state := ExpiringSoon;
          allowUsage := true;
          showWarning := true;
          if days == 0 {
            userMessage := EXPIRY_HEAD + "hoy. " + EXPIRY_TAIL;
          } else if days == 1 {
            userMessage := EXPIRY_HEAD + "mañana. " + EXPIRY_TAIL;
          } else {
            userMessage := EXPIRY_HEAD + "en " + Decimal(days) + " días. " + EXPIRY_TAIL;
          }
        } else {
          state := Active;
          allowUsage := true;
          showWarning := false;
          userMessage := ACTIVE_MESSAGE;
        }
      } else {
        state := Blocked;
        allowUsage := false;
        showWarning := false;
        userMessage := BLOCKED_MESSAGE;
      }
    } else if technicalStatus == LV.Expired {
      state := Expired;
      allowUsage := false;
      showWarning := false;
      userMessage := EXPIRED_MESSAGE;
    } else {
      state := Blocked;
      allowUsage := false;
      showWarning := false;
      userMessage := BLOCKED_MESSAGE;
    }
    return Resolved(AppStateRecord(state, allowUsage, showWarning, userMessage, daysRemaining, features,
                                   technicalStatus));
  }

  /** `get_app_state(license_path)`: asks the verifier for the technical
      status (which may rewrite the rollback marker), then resolves it.
      `licence` is what the verifier reads, `now` its clock reading;
      `reread` and `later` are the second read of the same path and the
      second clock reading. An exception from the verifier escapes. */
  method GetAppState(verifier: LV.LicenseVerifier, licence: Loaded<Json>, key: Loaded<PublicKey>,
                     h: HostProbes, now: int, w: LV.WriteOutcome, reread: Loaded<Json>, later: int,
                     p: Primitives) returns (o: Outcome)
    modifies verifier
    ensures o == AppStateFor(LV.Coordinate(licence, key, GenerateMachineId(h, p), now, old(verifier.marker), p),
                             reread, later, p)
    ensures verifier.marker ==
      if LV.Coordinate(licence, key, GenerateMachineId(h, p), now, old(verifier.marker), p) == LV.VALID
      then LV.MarkerAfterWrite(old(verifier.marker), w, LV.MarkerText(now, GenerateMachineId(h, p), p))
      else old(verifier.marker)
  {
    var verdict := verifier.VerifyLicense(licence, key, h, now, w, p);
    o := ResolveVerdict(verdict, reread, later, p);
  }
}
