/** The verification-record state machine: `saveVerificationCode` and
    `verifyCode` of library.js over the `phone-verification:code:<phone>`
    namespace. A record holds the digest of the current code, the count of
    failed attempts, the issue and expiry times and the end of a block (0
    when there is none); the store drops it 20 minutes after issue. */
module Verification {
  import opened Wrappers
  import opened Errors
  import opened TtlStore
  import opened PhoneFormat

  const MINUTE_MS: nat := 60 * 1000
  const CODE_EXPIRY_MINUTES: nat := 5
  const MAX_ATTEMPTS: nat := 3
  const BLOCK_DURATION_MINUTES: nat := 15
  /** How long a code may be used. */
  const CODE_TTL_MS: nat := CODE_EXPIRY_MINUTES * MINUTE_MS
  /** How long a phone stays blocked after the last allowed failure. */
  const BLOCK_MS: nat := BLOCK_DURATION_MINUTES * MINUTE_MS
  /** The store-level lifetime of a record, longer than the code and the block. */
  const RECORD_LIFETIME_MS: nat := 20 * MINUTE_MS

  datatype CodeRecord = CodeRecord(
    hashedCode: string,
    attempts: nat,
    createdAt: int,
    expiresAt: int,
    blockedUntil: int)

  type CodeTable = map<string, Entry<CodeRecord>>

  /** `Math.ceil(ms / 60000)` for a positive duration. */
  function RemainingMinutes(ms: int): (m: nat)
    requires ms > 0
    ensures m >= 1
    ensures (m - 1) * MINUTE_MS < ms <= m * MINUTE_MS
  {
    (ms + MINUTE_MS - 1) / MINUTE_MS
  }

  /** `blockedUntil && blockedUntil > now`; the stored 0 of an unblocked
      record is never later than a (non-negative) clock. */
  predicate BlockActive(r: CodeRecord, now: int) {
    r.blockedUntil > now
  }

  /** The record after one more wrong code at time `now`: the attempt is
      counted and the third one starts a block; nothing else changes. */
  function AfterWrongCode(r: CodeRecord, now: int): CodeRecord {
    var a := r.attempts + 1;
    r.(attempts := a, blockedUntil := if a >= MAX_ATTEMPTS then now + BLOCK_MS else r.blockedUntil)
  }

  /** `saveVerificationCode`: refuses while a block is active, leaving the
      record as it is; otherwise replaces any record by a fresh one whose code
      expires in five minutes and which the store keeps for twenty. */
  function SaveCode(codes: CodeTable, phone: Input, code: string, now: nat, hash: string -> string)
    : (out: (Result<int, Error>, CodeTable))
    ensures var p := Normalize(phone); var cur := Get(codes, p, now);
      if cur.Some? && BlockActive(cur.value, now) then
        && out.0 == Err(PhoneBlocked(RemainingMinutes(cur.value.blockedUntil - now)))
        && out.1 == codes
      else
        && out.0 == Ok(now + CODE_TTL_MS)
        && Get(out.1, p, now) == Some(CodeRecord(hash(code), 0, now, now + CODE_TTL_MS, 0))
        && out.1[p].expiresAt == now + RECORD_LIFETIME_MS
        && out.1 - {p} == codes - {p}
  {
    var p := Normalize(phone);
    var cur := Get(codes, p, now);
    if cur.Some? && BlockActive(cur.value, now) then
      (Err(PhoneBlocked(RemainingMinutes(cur.value.blockedUntil - now))), codes)
    else
      var expiresAt := now + CODE_TTL_MS;
      var issued := CodeRecord(hash(code), 0, now, expiresAt, 0);
      (Ok(expiresAt), codes[p := Entry(issued, now + RECORD_LIFETIME_MS)])
  }

  /** `verifyCode`. The checks run in a fixed order: a missing record, then
      an active block (whatever the code), then expiry (strictly after
      `expiresAt`), and only then the digest comparison. A match consumes
      the record; a mismatch counts an attempt. */
  function VerifyCode(codes: CodeTable, phone: Input, code: string, now: nat, hash: string -> string)
    : (out: (Status, CodeTable))
    ensures var p := Normalize(phone); var cur := Get(codes, p, now);
      && (out.0 == Success <==>
            && cur.Some? && !BlockActive(cur.value, now) && now <= cur.value.expiresAt
            && hash(code) == cur.value.hashedCode)
      && (out.0 == Success ==> out.1 == codes - {p})
      && (cur.None? ==> out == (Failure(CodeNotFound), codes))
      && (cur.Some? && BlockActive(cur.value, now) ==>
            out == (Failure(PhoneBlocked(RemainingMinutes(cur.value.blockedUntil - now))), codes))
      && (cur.Some? && !BlockActive(cur.value, now) && cur.value.expiresAt < now ==>
            out == (Failure(CodeExpired), codes))
      && (cur.Some? && !BlockActive(cur.value, now) && now <= cur.value.expiresAt
          && hash(code) != cur.value.hashedCode ==>
            var a := cur.value.attempts + 1;
            && out.1 == codes[p := codes[p].(value := AfterWrongCode(cur.value, now))]
            && out.0 == Failure(if a >= MAX_ATTEMPTS then PhoneBlocked(BLOCK_DURATION_MINUTES)
                                else CodeInvalid(MAX_ATTEMPTS - a)))
  {
    var p := Normalize(phone);
    match Get(codes, p, now)
    case None => (Failure(CodeNotFound), codes)
    case Some(r) =>
      if BlockActive(r, now) then
        (Failure(PhoneBlocked(RemainingMinutes(r.blockedUntil - now))), codes)
      else if r.expiresAt < now then
        (Failure(CodeExpired), codes)
      else if hash(code) == r.hashedCode then
        (Success, codes - {p})
      else
        var attempts := r.attempts + 1;
        var codes' := codes[p := codes[p].(value := AfterWrongCode(r, now))];
        if attempts >= MAX_ATTEMPTS then
          (Failure(PhoneBlocked(BLOCK_DURATION_MINUTES)), codes')
        else
          (Failure(CodeInvalid(MAX_ATTEMPTS - attempts)), codes')
  }

  // ---------------------------------------------------------------------
  // The record invariant, for a clock that never goes backwards

  /** What every stored record satisfies at time `now`: it was issued no
      later than `now`, its code lives five minutes and the record twenty,
      at most three attempts are counted, a block exists exactly when the
      third failure happened, and a block ends after the code expired but
      no later than the record itself, and at most fifteen minutes after
      `now`. */
  predicate RecordOk(e: Entry<CodeRecord>, now: int) {
    var r := e.value;
    && 0 <= r.createdAt <= now
    && r.expiresAt == r.createdAt + CODE_TTL_MS
    && e.expiresAt == r.createdAt + RECORD_LIFETIME_MS
    && r.attempts <= MAX_ATTEMPTS
    && (r.blockedUntil == 0 <==> r.attempts < MAX_ATTEMPTS)
    && (r.blockedUntil != 0 ==>
          r.expiresAt < r.blockedUntil <= e.expiresAt && r.blockedUntil <= now + BLOCK_MS)
  }

  predicate CodesOk(codes: CodeTable, now: int) {
    forall k :: k in codes ==> RecordOk(codes[k], now)
  }

  /** Saving a code keeps the invariant. */
  lemma SaveCodeKeepsInvariant(codes: CodeTable, phone: Input, code: string, now: nat, later: nat,
                               hash: string -> string)
    requires CodesOk(codes, now) && now <= later
    ensures CodesOk(SaveCode(codes, phone, code, later, hash).1, later)
  {
    var codes' := SaveCode(codes, phone, code, later, hash).1;
    forall k | k in codes' ensures RecordOk(codes'[k], later) {
      if k in codes && codes'[k] == codes[k] {
        assert RecordOk(codes[k], now);
      }
    }
  }

  /** Verifying a code keeps the invariant; in particular a wrong code can
      only be counted while no block exists, so the count stops at three. */
  lemma VerifyCodeKeepsInvariant(codes: CodeTable, phone: Input, code: string, now: nat, later: nat,
                                 hash: string -> string)
    requires CodesOk(codes, now) && now <= later
    ensures CodesOk(VerifyCode(codes, phone, code, later, hash).1, later)
  {
    var p := Normalize(phone);
    var codes' := VerifyCode(codes, phone, code, later, hash).1;
    forall k | k in codes' ensures RecordOk(codes'[k], later) {
      assert k in codes;
      assert RecordOk(codes[k], now);
      if k == p && codes'[k] != codes[k] {
        var r := codes[k].value;
        assert r.blockedUntil <= later <= r.expiresAt;
        assert r.blockedUntil == 0;
      }
    }
  }

  /** A record that has ever been blocked never verifies again: while the
      block lasts it is refused, and once the block is over its code has
      expired (or the store has dropped it). */
  lemma BlockedRecordNeverSucceeds(codes: CodeTable, phone: Input, code: string, now: nat, later: nat,
                                   hash: string -> string)
    requires CodesOk(codes, now) && now <= later
    requires Normalize(phone) in codes && codes[Normalize(phone)].value.blockedUntil != 0
    ensures VerifyCode(codes, phone, code, later, hash).0 != Success
  {
    assert RecordOk(codes[Normalize(phone)], now);
  }

  /** A quoted block never exceeds the fifteen-minute block duration. */
  lemma BlockMessageAtMostFifteenMinutes(codes: CodeTable, phone: Input, code: string, now: nat,
                                         hash: string -> string)
    requires CodesOk(codes, now)
    ensures forall m: nat :: VerifyCode(codes, phone, code, now, hash).0 == Failure(PhoneBlocked(m)) ==>
              1 <= m <= BLOCK_DURATION_MINUTES
    ensures forall m: nat :: SaveCode(codes, phone, code, now, hash).0 == Err(PhoneBlocked(m)) ==>
              1 <= m <= BLOCK_DURATION_MINUTES
  {
    var p := Normalize(phone);
    if Live(codes, p, now) {
      assert RecordOk(codes[p], now);
    }
  }

  /** A correct code is a one-shot credential: right after it verifies, any
      further attempt for the phone finds no record. */
  lemma CorrectCodeIsOneShot(codes: CodeTable, phone: Input, code: string, now: nat,
                             again: string, later: nat, hash: string -> string)
    requires VerifyCode(codes, phone, code, now, hash).0 == Success
    ensures var codes' := VerifyCode(codes, phone, code, now, hash).1;
      VerifyCode(codes', phone, again, later, hash) == (Failure(CodeNotFound), codes')
  {
  }

  /** A freshly saved code verifies within its five minutes, and (for an
      injective hash) a different code is rejected with two attempts left. */
  lemma SavedCodeVerifies(codes: CodeTable, phone: Input, code: string, wrong: string,
                          t0: nat, t1: nat, hash: string -> string)
    requires SaveCode(codes, phone, code, t0, hash).0.Ok?
    requires t0 <= t1 <= t0 + CODE_TTL_MS
    ensures var codes1 := SaveCode(codes, phone, code, t0, hash).1;
      VerifyCode(codes1, phone, code, t1, hash).0 == Success
    ensures var codes1 := SaveCode(codes, phone, code, t0, hash).1;
      hash(wrong) != hash(code) ==>
        VerifyCode(codes1, phone, wrong, t1, hash).0 == Failure(CodeInvalid(2))
  {
  }

  /** The escalating lockout: after a fresh save, three wrong codes within
      the five minutes give two `CodeInvalid` replies and then a block; a
      correct code during the block is refused as blocked, and so is a new
      save. */
  lemma ThreeWrongCodesBlock(codes: CodeTable, phone: Input, code: string, wrong: string,
                             t0: nat, t1: nat, t2: nat, t3: nat, t4: nat, hash: string -> string)
    requires SaveCode(codes, phone, code, t0, hash).0.Ok?
    requires t0 <= t1 <= t2 <= t3 <= t0 + CODE_TTL_MS
    requires t3 <= t4 < t3 + BLOCK_MS
    requires hash(wrong) != hash(code)
    ensures
      var s0 := SaveCode(codes, phone, code, t0, hash).1;
      var v1 := VerifyCode(s0, phone, wrong, t1, hash);
      var v2 := VerifyCode(v1.1, phone, wrong, t2, hash);
      var v3 := VerifyCode(v2.1, phone, wrong, t3, hash);
      && v1.0 == Failure(CodeInvalid(2))
      && v2.0 == Failure(CodeInvalid(1))
      && v3.0 == Failure(PhoneBlocked(BLOCK_DURATION_MINUTES))
      && VerifyCode(v3.1, phone, code, t4, hash).0.Failure?
      && VerifyCode(v3.1, phone, code, t4, hash).0.error.PhoneBlocked?
      && SaveCode(v3.1, phone, code, t4, hash).0.Err?
      && SaveCode(v3.1, phone, code, t4, hash).0.error.PhoneBlocked?
  {
    var p := Normalize(phone);
    var s0 := SaveCode(codes, phone, code, t0, hash).1;
    var v1 := VerifyCode(s0, phone, wrong, t1, hash);
    assert v1.1[p].value.attempts == 1 && v1.1[p].expiresAt == t0 + RECORD_LIFETIME_MS;
    var v2 := VerifyCode(v1.1, phone, wrong, t2, hash);
    assert v2.1[p].value.attempts == 2 && v2.1[p].expiresAt == t0 + RECORD_LIFETIME_MS;
    var v3 := VerifyCode(v2.1, phone, wrong, t3, hash);
    assert v3.1[p].value.blockedUntil == t3 + BLOCK_MS;
    assert v3.1[p].expiresAt == t0 + RECORD_LIFETIME_MS;
  }
}
