/** The request flows of library.js as pure transitions over the whole
    plugin state: `apiSendCode`, `apiVerifyCode`, `apiCheckStatus`, the
    registration hooks `checkRegistration` and `userCreated`,
    `apiUpdateUserPhone`, `userDelete`, `apiInitiateCall` and
    `apiVerifyUserPhone`; then the invariant that every reachable state
    keeps while the clock never goes backwards, and the profile flow. */
module Plugin {
  import opened Wrappers
  import opened Errors
  import opened TtlStore
  import opened PhoneFormat
  import opened Codes
  import opened Verification
  import opened IpLimiter
  import opened VerifiedMarker
  import opened PhoneRegistry

  datatype State = State(codes: CodeTable, ips: Counters, markers: Markers, reg: Registry)

  /** An empty store. */
  const Empty: State := State(map[], map[], map[], Registry(map[], map[], map[]))

  /** `apiSendCode`: the address is checked and then counted, even when the
      phone that follows is missing, invalid or taken; a code is issued
      only for a valid phone that nobody holds and that is not blocked.
      The voice call and its outcome are outside the model. */
  function SendCode(st: State, phone: Input, ip: string, draw: RandomDraw, now: nat, hash: string -> string)
    : (out: (Result<int, Error>, State))
    ensures !CheckIp(st.ips, ip, now) ==> out == (Err(IpBlocked), st)
    ensures CheckIp(st.ips, ip, now) ==> out.1.ips == IncrementIp(st.ips, ip, now)
    ensures out.1.reg == st.reg && out.1.markers == st.markers
    ensures CheckIp(st.ips, ip, now) && !Truthy(phone) ==> out.0 == Err(PhoneRequired)
    ensures CheckIp(st.ips, ip, now) && Truthy(phone) && !Validate(phone) ==> out.0 == Err(PhoneInvalid)
    ensures CheckIp(st.ips, ip, now) && Validate(phone) && IsPhoneExists(st.reg, phone) ==>
              out.0 == Err(PhoneExists)
    ensures CheckIp(st.ips, ip, now) && Validate(phone) && !IsPhoneExists(st.reg, phone) ==>
              out.0 == SaveCode(st.codes, phone, GenerateCode(draw), now, hash).0
    ensures out.0.Err? ==> out.1.codes == st.codes
    ensures out.0.Ok? ==>
              && Validate(phone) && !IsPhoneExists(st.reg, phone)
              && out.0.value == now + CODE_TTL_MS
              && out.1.codes == SaveCode(st.codes, phone, GenerateCode(draw), now, hash).1
              && Get(out.1.codes, Normalize(phone), now) ==
                   Some(CodeRecord(hash(GenerateCode(draw)), 0, now, now + CODE_TTL_MS, 0))
  {
    if !CheckIp(st.ips, ip, now) then (Err(IpBlocked), st)
    else
      var st1 := st.(ips := IncrementIp(st.ips, ip, now));
      if !Truthy(phone) then (Err(PhoneRequired), st1)
      else if !Validate(phone) then (Err(PhoneInvalid), st1)
      else
        var p := Normalize(phone);
        NormalizeIdempotent(phone);
        if IsPhoneExists(st1.reg, Text(p)) then (Err(PhoneExists), st1)
        else
          var (saved, codes') := SaveCode(st1.codes, Text(p), GenerateCode(draw), now, hash);
          match saved
          case Err(e) => (Err(e), st1)
          case Ok(expiresAt) => (Ok(expiresAt), st1.(codes := codes'))
  }

  /** `apiVerifyCode`: a successful verification leaves a ten-minute
      "verified" marker for the phone; nothing else touches the marker. */
  function VerifyRequest(st: State, phone: Input, code: string, now: nat, hash: string -> string)
    : (out: (Status, State))
    ensures !Truthy(phone) || code == "" ==> out == (Failure(MissingParams), st)
    ensures out.0 == Success <==>
              Truthy(phone) && code != "" && VerifyCode(st.codes, phone, code, now, hash).0 == Success
    ensures Truthy(phone) && code != "" ==> out.0 == VerifyCode(st.codes, phone, code, now, hash).0
    ensures Truthy(phone) && code != "" ==> out.1.codes == VerifyCode(st.codes, phone, code, now, hash).1
    ensures out.0 == Success ==> out.1.markers == MarkVerified(st.markers, phone, now)
    ensures out.0 != Success ==> out.1.markers == st.markers
    ensures out.1.reg == st.reg && out.1.ips == st.ips
  {
    if !Truthy(phone) || code == "" then (Failure(MissingParams), st)
    else
      var p := Normalize(phone);
      NormalizeIdempotent(phone);
      var (result, codes') := VerifyCode(st.codes, Text(p), code, now, hash);
      var markers' := if result == Success then MarkVerified(st.markers, Text(p), now) else st.markers;
      (result, st.(codes := codes', markers := markers'))
  }

  /** `apiCheckStatus`: `isPhoneVerified` for a present phone. */
  function CheckStatus(st: State, phone: Input, now: nat): (out: (bool, State))
    ensures !Truthy(phone) ==> out == (false, st)
    ensures Truthy(phone) ==> out == (IsPhoneVerified(st.markers, phone, now).0,
                                      st.(markers := IsPhoneVerified(st.markers, phone, now).1))
  {
    if !Truthy(phone) then (false, st)
    else
      NormalizeIdempotent(phone);
      var (verified, markers') := IsPhoneVerified(st.markers, Text(Normalize(phone)), now);
      (verified, st.(markers := markers'))
  }

  /** `checkRegistration`: the phone must be present, valid, free and
      verified within the last ten minutes; the normalised phone is handed
      on to account creation. */
  function CheckRegistration(st: State, phone: Input, now: nat): (out: (Result<string, Error>, State))
    ensures !Truthy(phone) ==> out == (Err(PhoneRequired), st)
    ensures Truthy(phone) && !Validate(phone) ==> out == (Err(PhoneInvalid), st)
    ensures Validate(phone) && IsPhoneExists(st.reg, phone) ==> out == (Err(PhoneExists), st)
    ensures out.0.Ok? <==>
              Validate(phone) && !IsPhoneExists(st.reg, phone) && IsPhoneVerified(st.markers, phone, now).0
    ensures Validate(phone) && !IsPhoneExists(st.reg, phone) && !IsPhoneVerified(st.markers, phone, now).0 ==>
              out.0 == Err(NotVerified)
    ensures out.0.Ok? ==> out.0.value == Normalize(phone) && IsMobile(out.0.value)
    ensures out.1.codes == st.codes && out.1.ips == st.ips && out.1.reg == st.reg
    ensures out.1.markers == (if Validate(phone) && !IsPhoneExists(st.reg, phone)
                              then IsPhoneVerified(st.markers, phone, now).1 else st.markers)
  {
    if !Truthy(phone) then (Err(PhoneRequired), st)
    else
      var clean := Normalize(phone);
      ValidateAfterNormalize(phone);
      NormalizeIdempotent(phone);
      if !Validate(Text(clean)) then (Err(PhoneInvalid), st)
      else if IsPhoneExists(st.reg, Text(clean)) then (Err(PhoneExists), st)
      else
        var (verified, markers') := IsPhoneVerified(st.markers, Text(clean), now);
        if !verified then (Err(NotVerified), st.(markers := markers'))
        else (Ok(clean), st.(markers := markers'))
  }

  /** `userCreated`: binds the phone to the new account as verified and
      consumes the marker; the marker is consumed even if the bind is
      refused. */
  function UserCreated(st: State, phone: Input, uid: Uid, now: nat): (r: State)
    ensures !Truthy(phone) || uid == 0 ==> r == st
    ensures Truthy(phone) && uid != 0 ==>
              && r.reg == SavePhoneToUser(st.reg, uid, phone, true, now).1
              && Normalize(phone) !in r.markers
              && r.markers - {Normalize(phone)} == st.markers - {Normalize(phone)}
    ensures r.codes == st.codes && r.ips == st.ips
  {
    if Truthy(phone) && uid != 0 then
      var (_, reg') := SavePhoneToUser(st.reg, uid, phone, true, now);
      st.(reg := reg', markers := ClearVerified(st.markers, phone))
    else st
  }

  /** `apiUpdateUserPhone`, for a target user resolved from the slug (0 when
      not found) and a caller who is `caller`, an administrator or not. A
      blank phone removes the user's phone; any other phone is saved
      unverified after the same checks as elsewhere. */
  function UpdateUserPhone(st: State, uid: Uid, caller: Uid, callerIsAdmin: bool, phone: Input, now: nat)
    : (out: (Status, State))
    ensures uid == 0 ==> out == (Failure(UserNotFound), st)
    ensures uid != 0 && uid != caller && !callerIsAdmin ==> out == (Failure(Unauthorized), st)
    ensures out.0.Failure? ==> out.1 == st
    ensures out.0 == Success <==>
              && uid != 0 && (uid == caller || callerIsAdmin)
              && (|| !Truthy(phone) || (phone.Text? && Blank(phone.s))
                  || (Validate(phone) && (FindUserByPhone(st.reg, phone).None? || FindUserByPhone(st.reg, phone).value == uid)))
    ensures uid != 0 && (uid == caller || callerIsAdmin) && phone == NonText(true) ==>
              out.0 == Failure(ServerError)
    ensures uid != 0 && (uid == caller || callerIsAdmin) && phone.Text? && !Blank(phone.s) && !Validate(phone) ==>
              out.0 == Failure(PhoneInvalid)
    ensures && uid != 0 && (uid == caller || callerIsAdmin) && phone.Text? && !Blank(phone.s) && Validate(phone)
            && FindUserByPhone(st.reg, phone).Some? && FindUserByPhone(st.reg, phone).value != uid ==>
              out.0 == Failure(PhoneExists)
    ensures out.1.codes == st.codes && out.1.ips == st.ips && out.1.markers == st.markers
    ensures out.0 == Success ==> uid != 0 && (uid == caller || callerIsAdmin)
    ensures out.0 == Success && (!Truthy(phone) || (phone.Text? && Blank(phone.s))) ==>
              out.1.reg == RemovePhone(st.reg, uid) && GetUserPhone(out.1.reg, uid) == None
    ensures out.0 == Success && Truthy(phone) && !(phone.Text? && Blank(phone.s)) ==>
              && Validate(phone)
              && GetUserPhone(out.1.reg, uid) == Some(PhoneData(Normalize(phone), false, None))
              && FindUserByPhone(out.1.reg, phone) == Some(uid)
  {
    if uid == 0 then (Failure(UserNotFound), st)
    else if uid != caller && !callerIsAdmin then (Failure(Unauthorized), st)
    else if !Truthy(phone) || (phone.Text? && Blank(phone.s)) then
      (Success, st.(reg := RemovePhone(st.reg, uid)))
    else if !phone.Text? then
      // `trim` is not a function of a non-string value: the handler's catch
      (Failure(ServerError), st)
    else if !Validate(phone) then (Failure(PhoneInvalid), st)
    else
      var p := Normalize(phone);
      NormalizeIdempotent(phone);
      var existing := FindUserByPhone(st.reg, Text(p));
      if existing.Some? && existing.value != uid then (Failure(PhoneExists), st)
      else
        var (result, reg') := SavePhoneToUser(st.reg, uid, Text(p), false, now);
        if result == Success then (Success, st.(reg := reg')) else (result, st)
  }

  /** `userDelete`, for what the host's range query reported: the first
      phone found is released and its verified marker cleared. */
  function DeleteUser(st: State, uid: Uid, found: seq<string>): (r: State)
    requires HostRangeAnswer(st.reg, uid, found)
    ensures uid == 0 || |found| == 0 ==> r == st
    ensures uid != 0 && |found| > 0 ==>
              && r.reg == ReleaseFirstPhone(st.reg, uid, found)
              && r.markers == ClearVerified(st.markers, Text(found[0]))
    ensures r.codes == st.codes && r.ips == st.ips
  {
    if uid == 0 || |found| == 0 then st
    else st.(reg := ReleaseFirstPhone(st.reg, uid, found), markers := ClearVerified(st.markers, Text(found[0])))
  }

  /** The reply of `apiInitiateCall`: the normalised phone, the plain code
      and the code's expiry. */
  datatype CallReply = CallReply(phone: string, code: string, expiresAt: int)

  /** `apiInitiateCall`: the checks of `apiSendCode` without the address
      limiter, and the code itself handed back in the reply instead of a
      voice call. */
  function InitiateCall(st: State, phone: Input, draw: RandomDraw, now: nat, hash: string -> string)
    : (out: (Result<CallReply, Error>, State))
    ensures !Truthy(phone) ==> out == (Err(PhoneRequired), st)
    ensures Truthy(phone) && !Validate(phone) ==> out == (Err(PhoneInvalid), st)
    ensures Validate(phone) && IsPhoneExists(st.reg, phone) ==> out == (Err(PhoneExists), st)
    ensures Validate(phone) && !IsPhoneExists(st.reg, phone) ==>
              var saved := SaveCode(st.codes, phone, GenerateCode(draw), now, hash);
              && out.1 == st.(codes := saved.1)
              && (saved.0.Err? ==> out.0 == Err(saved.0.error))
              && (saved.0.Ok? ==> out.0 == Ok(CallReply(Normalize(phone), GenerateCode(draw), saved.0.value)))
    ensures out.1.ips == st.ips && out.1.reg == st.reg && out.1.markers == st.markers
  {
    if !Truthy(phone) then (Err(PhoneRequired), st)
    else if !Validate(phone) then (Err(PhoneInvalid), st)
    else
      var p := Normalize(phone);
      NormalizeIdempotent(phone);
      if IsPhoneExists(st.reg, Text(p)) then (Err(PhoneExists), st)
      else
        var code := GenerateCode(draw);
        var (saved, codes') := SaveCode(st.codes, Text(p), code, now, hash);
        match saved
        case Err(e) => (Err(e), st.(codes := codes'))
        case Ok(expiresAt) => (Ok(CallReply(p, code, expiresAt)), st.(codes := codes'))
  }

  /** `apiVerifyUserPhone`: only the owner (an administrator is refused)
      verifies the phone held in their profile; success marks the profile
      verified, and sets no "verified" marker. */
  function VerifyUserPhone(st: State, uid: Uid, caller: Uid, code: string, now: nat, hash: string -> string)
    : (out: (Status, State))
    ensures uid == 0 ==> out == (Failure(UserNotFound), st)
    ensures uid != 0 && uid != caller ==> out == (Failure(Unauthorized), st)
    ensures uid != 0 && uid == caller && GetUserPhone(st.reg, uid).None? ==> out == (Failure(NoPhone), st)
    ensures uid != 0 && uid == caller && GetUserPhone(st.reg, uid).Some? ==>
              var v := VerifyCode(st.codes, Text(GetUserPhone(st.reg, uid).value.phone), code, now, hash);
              && out.0 == v.0
              && out.1.codes == v.1
              && out.1.reg == (if v.0 == Success then ConfirmPhone(st.reg, uid, now) else st.reg)
    ensures out.0 == Success ==>
              && GetUserPhone(out.1.reg, uid).Some?
              && GetUserPhone(out.1.reg, uid).value.phone == GetUserPhone(st.reg, uid).value.phone
              && GetUserPhone(out.1.reg, uid).value.verified
    ensures out.1.ips == st.ips && out.1.markers == st.markers
  {
    if uid == 0 then (Failure(UserNotFound), st)
    else if uid != caller then (Failure(Unauthorized), st)
    else match GetUserPhone(st.reg, uid)
      case None => (Failure(NoPhone), st)
      case Some(data) =>
        var (result, codes') := VerifyCode(st.codes, Text(data.phone), code, now, hash);
        if result == Success then (Success, st.(codes := codes', reg := ConfirmPhone(st.reg, uid, now)))
        else (result, st.(codes := codes'))
  }

  // ---------------------------------------------------------------------
  // Reachable states

  /** One request to the plugin. */
  datatype Request =
    | SendCodeReq(phone: Input, ip: string, draw: RandomDraw)
    | VerifyCodeReq(phone: Input, code: string)
    | CheckStatusReq(phone: Input)
    | RegisterReq(phone: Input)
    | UserCreatedReq(phone: Input, uid: Uid)
    | UpdatePhoneReq(uid: Uid, caller: Uid, callerIsAdmin: bool, phone: Input)
    | DeleteUserReq(uid: Uid)
    | InitiateCallReq(phone: Input, draw: RandomDraw)
    | VerifyUserPhoneReq(uid: Uid, caller: Uid, code: string)

  /** A request and the clock reading at which it runs. */
  datatype Timed = Timed(req: Request, at: nat)

  /** Some answer the host's range query may give. */
  ghost function SomeBoundPhone(reg: Registry, uid: Uid): (found: seq<string>)
    ensures HostRangeAnswer(reg, uid, found)
  {
    if exists q :: q in reg.phoneUid && reg.phoneUid[q] == uid then
      var q :| q in reg.phoneUid && reg.phoneUid[q] == uid;
      [q]
    else []
  }

  ghost function Step(st: State, req: Request, now: nat, hash: string -> string): State {
    match req
    case SendCodeReq(phone, ip, draw) => SendCode(st, phone, ip, draw, now, hash).1
    case VerifyCodeReq(phone, code) => VerifyRequest(st, phone, code, now, hash).1
    case CheckStatusReq(phone) => CheckStatus(st, phone, now).1
    case RegisterReq(phone) => CheckRegistration(st, phone, now).1
    case UserCreatedReq(phone, uid) => UserCreated(st, phone, uid, now)
    case UpdatePhoneReq(uid, caller, admin, phone) => UpdateUserPhone(st, uid, caller, admin, phone, now).1
    case DeleteUserReq(uid) => DeleteUser(st, uid, SomeBoundPhone(st.reg, uid))
    case InitiateCallReq(phone, draw) => InitiateCall(st, phone, draw, now, hash).1
    case VerifyUserPhoneReq(uid, caller, code) => VerifyUserPhone(st, uid, caller, code, now, hash).1
  }

  ghost function Run(st: State, trace: seq<Timed>, hash: string -> string): State
    decreases |trace|
  {
    if trace == [] then st else Run(Step(st, trace[0].req, trace[0].at, hash), trace[1..], hash)
  }

  /** The requests run at non-decreasing times, none earlier than `now`. */
  predicate Chronological(trace: seq<Timed>, now: nat) {
    && (forall i :: 0 <= i < |trace| ==> now <= trace[i].at)
    && (forall i, j :: 0 <= i < j < |trace| ==> trace[i].at <= trace[j].at)
  }

  function LastTime(trace: seq<Timed>, now: nat): nat {
    if trace == [] then now else trace[|trace| - 1].at
  }

  /** The whole-state invariant at time `now`. */
  predicate Inv(st: State, now: nat) {
    && CodesOk(st.codes, now)
    && CountersOk(st.ips, now)
    && MarkersOk(st.markers, now)
    && RegistryOk(st.reg)
  }

  lemma SendCodeKeepsInvariant(st: State, phone: Input, ip: string, draw: RandomDraw, now: nat, later: nat,
                               hash: string -> string)
    requires Inv(st, now) && now <= later
    ensures Inv(SendCode(st, phone, ip, draw, later, hash).1, later)
  {
    NormalizeIdempotent(phone);
    SaveCodeKeepsInvariant(st.codes, phone, GenerateCode(draw), now, later, hash);
    IncrementKeepsInvariant(st.ips, ip, now, later);
  }

  lemma VerifyRequestKeepsInvariant(st: State, phone: Input, code: string, now: nat, later: nat,
                                    hash: string -> string)
    requires Inv(st, now) && now <= later
    ensures Inv(VerifyRequest(st, phone, code, later, hash).1, later)
  {
    NormalizeIdempotent(phone);
    VerifyCodeKeepsInvariant(st.codes, phone, code, now, later, hash);
    MarkKeepsInvariant(st.markers, phone, now, later);
  }

  lemma UpdateUserPhoneKeepsInvariant(st: State, uid: Uid, caller: Uid, admin: bool, phone: Input,
                                      now: nat, later: nat)
    requires Inv(st, now) && now <= later
    ensures Inv(UpdateUserPhone(st, uid, caller, admin, phone, later).1, later)
  {
    RemoveKeepsInvariant(st.reg, uid);
    SaveKeepsInvariant(st.reg, uid, Text(Normalize(phone)), false, later);
  }

  lemma UserCreatedKeepsInvariant(st: State, phone: Input, uid: Uid, now: nat, later: nat)
    requires Inv(st, now) && now <= later
    ensures Inv(UserCreated(st, phone, uid, later), later)
  {
    SaveKeepsInvariant(st.reg, uid, phone, true, later);
  }

  lemma DeleteUserKeepsInvariant(st: State, uid: Uid, now: nat, later: nat)
    requires Inv(st, now) && now <= later
    ensures Inv(DeleteUser(st, uid, SomeBoundPhone(st.reg, uid)), later)
  {
    ReleaseKeepsInvariant(st.reg, uid, SomeBoundPhone(st.reg, uid));
  }

  lemma InitiateCallKeepsInvariant(st: State, phone: Input, draw: RandomDraw, now: nat, later: nat,
                                   hash: string -> string)
    requires Inv(st, now) && now <= later
    ensures Inv(InitiateCall(st, phone, draw, later, hash).1, later)
  {
    NormalizeIdempotent(phone);
    SaveCodeKeepsInvariant(st.codes, phone, GenerateCode(draw), now, later, hash);
    assert CountersOk(st.ips, later);
  }

  lemma VerifyUserPhoneKeepsInvariant(st: State, uid: Uid, caller: Uid, code: string, now: nat, later: nat,
                                      hash: string -> string)
    requires Inv(st, now) && now <= later
    ensures Inv(VerifyUserPhone(st, uid, caller, code, later, hash).1, later)
  {
    if uid != 0 && uid == caller && GetUserPhone(st.reg, uid).Some? {
      VerifyCodeKeepsInvariant(st.codes, Text(GetUserPhone(st.reg, uid).value.phone), code, now, later, hash);
      ConfirmKeepsInvariant(st.reg, uid, later);
    }
    assert CountersOk(st.ips, later) && MarkersOk(st.markers, later);
  }

  lemma StepKeepsInvariant(st: State, req: Request, now: nat, later: nat, hash: string -> string)
    requires Inv(st, now) && now <= later
    ensures Inv(Step(st, req, later, hash), later)
  {
    match req
    case SendCodeReq(phone, ip, draw) =>
      SendCodeKeepsInvariant(st, phone, ip, draw, now, later, hash);
    case VerifyCodeReq(phone, code) =>
      VerifyRequestKeepsInvariant(st, phone, code, now, later, hash);
    case CheckStatusReq(phone) =>
      assert Inv(CheckStatus(st, phone, later).1, later);
    case RegisterReq(phone) =>
      assert Inv(CheckRegistration(st, phone, later).1, later);
    case UserCreatedReq(phone, uid) =>
      UserCreatedKeepsInvariant(st, phone, uid, now, later);
    case UpdatePhoneReq(uid, caller, admin, phone) =>
      UpdateUserPhoneKeepsInvariant(st, uid, caller, admin, phone, now, later);
    case DeleteUserReq(uid) =>
      DeleteUserKeepsInvariant(st, uid, now, later);
    case InitiateCallReq(phone, draw) =>
      InitiateCallKeepsInvariant(st, phone, draw, now, later, hash);
    case VerifyUserPhoneReq(uid, caller, code) =>
      VerifyUserPhoneKeepsInvariant(st, uid, caller, code, now, later, hash);
  }

  /** Every state reached by a chronological run keeps the invariant. */
  lemma {:induction false} RunKeepsInvariant(st: State, now: nat, trace: seq<Timed>, hash: string -> string)
    requires Inv(st, now) && Chronological(trace, now)
    ensures Inv(Run(st, trace, hash), LastTime(trace, now))
    decreases |trace|
  {
    if trace != [] {
      StepKeepsInvariant(st, trace[0].req, now, trace[0].at, hash);
      var st1 := Step(st, trace[0].req, trace[0].at, hash);
      assert Chronological(trace[1..], trace[0].at);
      RunKeepsInvariant(st1, trace[0].at, trace[1..], hash);
      if |trace| > 1 {
        assert LastTime(trace[1..], trace[0].at) == LastTime(trace, now);
      }
    }
  }

  /** In every state reachable from an empty store by requests whose clock
      never goes backwards: no record counts more than three attempts; a
      block, once set, ends after the code has expired and no later than
      the record's twenty-minute lifetime, and at most fifteen minutes from
      now; every IP window closes within 24 hours; and every verified marker
      expires ten minutes after it was set. */
  lemma ReachableStateFacts(trace: seq<Timed>, hash: string -> string)
    requires Chronological(trace, 0)
    ensures var st := Run(Empty, trace, hash); var now := LastTime(trace, 0);
      && (forall k :: k in st.codes ==> st.codes[k].value.attempts <= MAX_ATTEMPTS)
      && (forall k :: k in st.codes && st.codes[k].value.blockedUntil != 0 ==>
            && st.codes[k].value.expiresAt < st.codes[k].value.blockedUntil
            && st.codes[k].value.blockedUntil <= st.codes[k].expiresAt
            && st.codes[k].value.blockedUntil <= now + BLOCK_MS)
      && (forall k :: k in st.ips ==> st.ips[k].expiresAt <= now + IP_WINDOW_MS)
      && (forall k :: k in st.markers ==> st.markers[k].expiresAt == st.markers[k].value + VERIFIED_TTL_MS)
  {
    RunKeepsInvariant(Empty, 0, trace, hash);
    var st := Run(Empty, trace, hash);
    var now := LastTime(trace, 0);
    forall k | k in st.codes ensures st.codes[k].value.attempts <= MAX_ATTEMPTS {
      assert RecordOk(st.codes[k], now);
    }
    forall k | k in st.codes && st.codes[k].value.blockedUntil != 0
      ensures st.codes[k].value.expiresAt < st.codes[k].value.blockedUntil <= st.codes[k].expiresAt
      ensures st.codes[k].value.blockedUntil <= now + BLOCK_MS
    {
      assert RecordOk(st.codes[k], now);
    }
  }

  // ---------------------------------------------------------------------
  // Composed scenarios

  /** The registration path: a code is sent, the same code verifies within
      five minutes, registration is accepted within ten minutes of that,
      and account creation binds the phone to the new user as verified and
      consumes the marker. */
  lemma RegistrationHappyPath(st: State, phone: Input, ip: string, draw: RandomDraw, uid: Uid,
                              t0: nat, t1: nat, t2: nat, t3: nat, hash: string -> string)
    requires Validate(phone) && !IsPhoneExists(st.reg, phone) && CheckIp(st.ips, ip, t0)
    requires !(Live(st.codes, Normalize(phone), t0) && BlockActive(st.codes[Normalize(phone)].value, t0))
    requires uid != 0
    requires t0 <= t1 <= t0 + CODE_TTL_MS && t1 <= t2 < t1 + VERIFIED_TTL_MS && t2 <= t3
    ensures
      var s1 := SendCode(st, phone, ip, draw, t0, hash);
      var s2 := VerifyRequest(s1.1, phone, GenerateCode(draw), t1, hash);
      var s3 := CheckRegistration(s2.1, phone, t2);
      && s1.0 == Ok(t0 + CODE_TTL_MS)
      && s2.0 == Success
      && s3.0 == Ok(Normalize(phone))
      && var s4 := UserCreated(s3.1, Text(s3.0.value), uid, t3);
         && FindUserByPhone(s4.reg, phone) == Some(uid)
         && GetUserPhone(s4.reg, uid).Some?
         && GetUserPhone(s4.reg, uid).value.phone == Normalize(phone)
         && GetUserPhone(s4.reg, uid).value.verified
         && !CheckStatus(s4, phone, t3).0
  {
    var p := Normalize(phone);
    NormalizeIdempotent(phone);
    ValidNormalForm(phone);
    var s1 := SendCode(st, phone, ip, draw, t0, hash);
    assert s1.0 == Ok(t0 + CODE_TTL_MS);
    var s2 := VerifyRequest(s1.1, phone, GenerateCode(draw), t1, hash);
    assert s2.0 == Success;
    assert s2.1.markers[p] == Entry(t1, t1 + VERIFIED_TTL_MS);
    var s3 := CheckRegistration(s2.1, phone, t2);
    assert s3.0 == Ok(p);
    var s4 := UserCreated(s3.1, Text(p), uid, t3);
    assert s4.reg == SavePhoneToUser(s3.1.reg, uid, Text(p), true, t3).1;
  }

  /** With an injective digest the code just sent is the only code that
      verifies within its five minutes; any other is refused with two
      attempts left. */
  lemma OnlyTheSentCodeVerifies(st: State, phone: Input, ip: string, draw: RandomDraw, guess: string,
                                t0: nat, t1: nat, hash: string -> string)
    requires Injective(hash)
    requires SendCode(st, phone, ip, draw, t0, hash).0.Ok?
    requires t0 <= t1 <= t0 + CODE_TTL_MS && guess != ""
    ensures var s1 := SendCode(st, phone, ip, draw, t0, hash).1;
      && (VerifyRequest(s1, phone, guess, t1, hash).0 == Success <==> guess == GenerateCode(draw))
      && (guess != GenerateCode(draw) ==> VerifyRequest(s1, phone, guess, t1, hash).0 == Failure(CodeInvalid(2)))
  {
    var code := GenerateCode(draw);
    ValidNormalForm(phone);
    SavedCodeVerifies(st.codes, phone, code, guess, t0, t1, hash);
    if guess != code {
      assert hash(guess) != hash(code);
    }
  }

  /** An IP at its limit gets `IpBlocked` and changes nothing, and an
      allowed IP is counted even when the phone is invalid. */
  lemma SendCodeCountsEveryAllowedRequest(st: State, phone: Input, ip: string, draw: RandomDraw,
                                          now: nat, hash: string -> string)
    requires ip != ""
    ensures CheckIp(st.ips, ip, now) ==>
              Count(SendCode(st, phone, ip, draw, now, hash).1.ips, ip, now) == Count(st.ips, ip, now) + 1
    ensures Count(st.ips, ip, now) >= MAX_REQUESTS_PER_IP ==>
              SendCode(st, phone, ip, draw, now, hash) == (Err(IpBlocked), st)
  {
  }

  /** `apiInitiateCall` is not limited per address: where `apiSendCode`
      refuses a blocked address, it still issues a code, and the code in
      its reply verifies. */
  lemma InitiateCallSkipsIpLimit(st: State, phone: Input, ip: string, draw: RandomDraw, now: nat,
                                 hash: string -> string)
    requires Validate(phone) && !IsPhoneExists(st.reg, phone) && !CheckIp(st.ips, ip, now)
    requires !(Live(st.codes, Normalize(phone), now) && BlockActive(st.codes[Normalize(phone)].value, now))
    ensures SendCode(st, phone, ip, draw, now, hash) == (Err(IpBlocked), st)
    ensures var call := InitiateCall(st, phone, draw, now, hash);
      && call.0.Ok?
      && call.0.value.phone == Normalize(phone)
      && VerifyRequest(call.1, phone, call.0.value.code, now, hash).0 == Success
  {
    ValidNormalForm(phone);
  }

  // ---------------------------------------------------------------------
  // The profile flow

  /** The profile screen saves a new phone through `apiUpdateUserPhone` and
      then asks `apiSendCode` for a code. The save binds the phone to the
      user, so `apiSendCode` refuses the user's own phone as taken and the
      flow can never reach `apiVerifyUserPhone`. */
  lemma ProfileFlowRefusesOwnPhone(st: State, uid: Uid, phone: Input, ip: string, draw: RandomDraw,
                                   t0: nat, t1: nat, hash: string -> string)
    requires uid != 0 && Validate(phone)
    requires UpdateUserPhone(st, uid, uid, false, phone, t0).0 == Success
    requires CheckIp(st.ips, ip, t1)
    ensures var s1 := UpdateUserPhone(st, uid, uid, false, phone, t0).1;
      SendCode(s1, phone, ip, draw, t1, hash).0 == Err(PhoneExists)
  {
    ValidIsNotBlank(phone);
  }

  /** `apiSendCode` as the profile flow needs it: a phone bound to the
      signed-in caller is not "taken"; every other case is as in
      `SendCode`. */
  function ProfileSendCode(st: State, caller: Uid, phone: Input, ip: string, draw: RandomDraw, now: nat,
                           hash: string -> string)
    : (out: (Result<int, Error>, State))
    ensures FindUserByPhone(st.reg, phone) != Some(caller) ==> out == SendCode(st, phone, ip, draw, now, hash)
    ensures !(CheckIp(st.ips, ip, now) && Validate(phone)) ==> out == SendCode(st, phone, ip, draw, now, hash)
    ensures CheckIp(st.ips, ip, now) && Validate(phone) && FindUserByPhone(st.reg, phone) == Some(caller) ==>
              var saved := SaveCode(st.codes, phone, GenerateCode(draw), now, hash);
              && out.0 == saved.0
              && out.1 == st.(ips := IncrementIp(st.ips, ip, now), codes := saved.1)
  {
    if !CheckIp(st.ips, ip, now) then (Err(IpBlocked), st)
    else
      var st1 := st.(ips := IncrementIp(st.ips, ip, now));
      if !Truthy(phone) then (Err(PhoneRequired), st1)
      else if !Validate(phone) then (Err(PhoneInvalid), st1)
      else
        var p := Normalize(phone);
        NormalizeIdempotent(phone);
        var owner := FindUserByPhone(st1.reg, Text(p));
        if owner.Some? && owner.value != caller then (Err(PhoneExists), st1)
        else
          var (saved, codes') := SaveCode(st1.codes, Text(p), GenerateCode(draw), now, hash);
          match saved
          case Err(e) => (Err(e), st1)
          case Ok(expiresAt) => (Ok(expiresAt), st1.(codes := codes'))
  }

  /** With that send step the profile flow completes: save the phone, get
      a code for it, and verify that code within five minutes; the profile
      then holds the phone, verified at that time. */
  lemma ProfileFlowVerifies(st: State, uid: Uid, phone: Input, ip: string, draw: RandomDraw,
                            t0: nat, t1: nat, t2: nat, hash: string -> string)
    requires uid != 0 && Validate(phone)
    requires UpdateUserPhone(st, uid, uid, false, phone, t0).0 == Success
    requires CheckIp(st.ips, ip, t1)
    requires !(Live(st.codes, Normalize(phone), t1) && BlockActive(st.codes[Normalize(phone)].value, t1))
    requires t0 <= t1 <= t2 <= t1 + CODE_TTL_MS
    ensures var s1 := UpdateUserPhone(st, uid, uid, false, phone, t0).1;
            var s2 := ProfileSendCode(s1, uid, phone, ip, draw, t1, hash);
            var s3 := VerifyUserPhone(s2.1, uid, uid, GenerateCode(draw), t2, hash);
      && s2.0 == Ok(t1 + CODE_TTL_MS)
      && s3.0 == Success
      && GetUserPhone(s3.1.reg, uid) == Some(PhoneData(Normalize(phone), true, if t2 == 0 then None else Some(t2)))
  {
    ValidNormalForm(phone);
    ValidIsNotBlank(phone);
    var p := Normalize(phone);
    var s1 := UpdateUserPhone(st, uid, uid, false, phone, t0).1;
    assert FindUserByPhone(s1.reg, phone) == Some(uid);
    var s2 := ProfileSendCode(s1, uid, phone, ip, draw, t1, hash);
    assert s2.0 == Ok(t1 + CODE_TTL_MS);
    assert GetUserPhone(s2.1.reg, uid).value.phone == p;
    NormalizeIdempotent(phone);
    SavedCodeVerifies(s1.codes, phone, GenerateCode(draw), GenerateCode(draw), t1, t2, hash);
  }
}
