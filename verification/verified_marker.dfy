/** The short-lived "this phone passed verification" marker:
    `markPhoneAsVerified`, `isPhoneVerified` and `clearVerifiedPhone` of
    library.js over `phone-verification:verified:<phone>`. The value is
    the time of verification; the store drops it ten minutes later. */
module VerifiedMarker {
  import opened Wrappers
  import opened TtlStore
  import opened PhoneFormat

  const VERIFIED_TTL_MS: nat := 600 * 1000

  type Markers = map<string, Entry<int>>

  /** `markPhoneAsVerified`: stores `now` under the normalised phone,
      expiring ten minutes later. */
  function MarkVerified(markers: Markers, phone: Input, now: int): (r: Markers)
    ensures Normalize(phone) in r && r[Normalize(phone)] == Entry(now, now + VERIFIED_TTL_MS)
    ensures r - {Normalize(phone)} == markers - {Normalize(phone)}
  {
    markers[Normalize(phone) := Entry(now, now + VERIFIED_TTL_MS)]
  }

  /** `isPhoneVerified`: false without a live marker; a marker older than
      ten minutes is deleted and reads as false. */
  function IsPhoneVerified(markers: Markers, phone: Input, now: int): (out: (bool, Markers))
    ensures out.0 <==> Live(markers, Normalize(phone), now)
                       && now - markers[Normalize(phone)].value <= VERIFIED_TTL_MS
    ensures var p := Normalize(phone);
      out.1 == if Live(markers, p, now) && now - markers[p].value > VERIFIED_TTL_MS then markers - {p} else markers
  {
    var p := Normalize(phone);
    match Get(markers, p, now)
    case None => (false, markers)
    case Some(verifiedAt) =>
      if now - verifiedAt > VERIFIED_TTL_MS then (false, markers - {p})
      else (true, markers)
  }

  /** `clearVerifiedPhone`. */
  function ClearVerified(markers: Markers, phone: Input): (r: Markers)
    ensures Normalize(phone) !in r
    ensures r - {Normalize(phone)} == markers - {Normalize(phone)}
  {
    markers - {Normalize(phone)}
  }

  /** Every marker was written at or before `now` and expires exactly ten
      minutes after it was written. */
  predicate MarkersOk(markers: Markers, now: int) {
    forall k :: k in markers ==> markers[k].value <= now && markers[k].expiresAt == markers[k].value + VERIFIED_TTL_MS
  }

  /** Under the invariant the age check of `isPhoneVerified` never fires:
      store expiry already hides every marker older than ten minutes, so the
      read changes nothing and answers exactly "marked less than ten minutes
      ago". */
  lemma StaleBranchIsDead(markers: Markers, phone: Input, now: int)
    requires MarkersOk(markers, now)
    ensures IsPhoneVerified(markers, phone, now).1 == markers
    ensures IsPhoneVerified(markers, phone, now).0 <==>
              Normalize(phone) in markers && now < markers[Normalize(phone)].value + VERIFIED_TTL_MS
  {
  }

  /** Marking, then asking within ten minutes, answers true for any
      separator form of the phone; asking later answers false. */
  lemma MarkThenAsk(markers: Markers, phone: Input, asked: Input, t0: int, t1: int)
    requires Normalize(asked) == Normalize(phone) && t0 <= t1
    ensures IsPhoneVerified(MarkVerified(markers, phone, t0), asked, t1).0 <==> t1 < t0 + VERIFIED_TTL_MS
  {
  }

  lemma MarkKeepsInvariant(markers: Markers, phone: Input, now: int, later: int)
    requires MarkersOk(markers, now) && now <= later
    ensures MarkersOk(MarkVerified(markers, phone, later), later)
  {
  }
}
