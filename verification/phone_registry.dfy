/** The phone registry: the sorted set `phone:uid` (phone to uid, the uid
    as score), the sorted set `users:phone` (uid to last-touched time) and
    the phone fields of the user profiles, with `savePhoneToUser`,
    `isPhoneExists`, `findUserByPhone`, `getUserPhone`, the phone-removal
    branch of `apiUpdateUserPhone` and the release step of `userDelete`. */
module PhoneRegistry {
  import opened Wrappers
  import opened Errors
  import opened PhoneFormat

  /** NodeBB user ids; 0 is the guest/system id and is falsy. */
  type Uid = nat

  /** The profile fields `phoneNumber`, `phoneVerified`, `phoneVerifiedAt`. */
  datatype Profile = Profile(phone: string, verified: bool, verifiedAt: nat)

  datatype Registry = Registry(
    phoneUid: map<string, Uid>,
    usersPhone: map<Uid, nat>,
    profiles: map<Uid, Profile>)

  /** What `getUserPhone` returns; `verifiedAt` is `null` for a zero time. */
  datatype PhoneData = PhoneData(phone: string, verified: bool, verifiedAt: Option<nat>)

  /** `sortedSetScore('phone:uid', p)` as the plugin reads it: a missing
      member and a score of 0 both read as "nobody". */
  function Owner(reg: Registry, p: string): (r: Option<Uid>)
    ensures r.Some? <==> p in reg.phoneUid && reg.phoneUid[p] != 0
    ensures r.Some? ==> r.value == reg.phoneUid[p]
  {
    if p in reg.phoneUid && reg.phoneUid[p] != 0 then Some(reg.phoneUid[p]) else None
  }

  /** `findUserByPhone`. */
  function FindUserByPhone(reg: Registry, phone: Input): (r: Option<Uid>)
    ensures r.Some? ==> r.value != 0 && Normalize(phone) in reg.phoneUid && reg.phoneUid[Normalize(phone)] == r.value
    ensures r.None? ==> Normalize(phone) !in reg.phoneUid || reg.phoneUid[Normalize(phone)] == 0
  {
    Owner(reg, Normalize(phone))
  }

  /** `isPhoneExists`: agrees with `findUserByPhone` finding somebody. */
  function IsPhoneExists(reg: Registry, phone: Input): (b: bool)
    ensures b <==> FindUserByPhone(reg, phone).Some?
  {
    var p := Normalize(phone);
    p in reg.phoneUid && reg.phoneUid[p] != 0
  }

  /** `getUserPhone`: nothing unless the profile holds a non-empty phone. */
  function GetUserPhone(reg: Registry, uid: Uid): (r: Option<PhoneData>)
    ensures r.Some? <==> uid in reg.profiles && reg.profiles[uid].phone != ""
    ensures r.Some? ==> r.value.phone == reg.profiles[uid].phone
                        && r.value.verified == reg.profiles[uid].verified
                        && r.value.verifiedAt ==
                             (if reg.profiles[uid].verifiedAt == 0 then None else Some(reg.profiles[uid].verifiedAt))
  {
    if uid in reg.profiles && reg.profiles[uid].phone != "" then
      var pr := reg.profiles[uid];
      Some(PhoneData(pr.phone, pr.verified, if pr.verifiedAt == 0 then None else Some(pr.verifiedAt)))
    else None
  }

  /** `savePhoneToUser`: refused with `PhoneExists` exactly when the
      normalised phone is bound to a different user; otherwise binds it to
      `uid`, touches the user's listing time and writes the profile fields.
      A phone the user held before stays bound to them. */
  function SavePhoneToUser(reg: Registry, uid: Uid, phone: Input, verified: bool, now: nat)
    : (out: (Status, Registry))
    ensures var p := Normalize(phone);
      && (out.0 == Failure(PhoneExists) <==> Owner(reg, p).Some? && Owner(reg, p).value != uid)
      && (out.0 != Success ==> out.0 == Failure(PhoneExists) && out.1 == reg)
      && (out.0 == Success ==>
            && FindUserByPhone(out.1, phone) == (if uid == 0 then None else Some(uid))
            && GetUserPhone(out.1, uid) ==
                 (if p == "" then None
                  else Some(PhoneData(p, verified, if verified && now != 0 then Some(now) else None)))
            && (forall q :: q != p ==> Owner(out.1, q) == Owner(reg, q))
            && (forall u :: u != uid ==> GetUserPhone(out.1, u) == GetUserPhone(reg, u))
            && uid in out.1.usersPhone && out.1.usersPhone[uid] == now
            && out.1.usersPhone - {uid} == reg.usersPhone - {uid})
  {
    var p := Normalize(phone);
    var existing := Owner(reg, p);
    if existing.Some? && existing.value != uid then
      (Failure(PhoneExists), reg)
    else
      var fields := Profile(p, verified, if verified then now else 0);
      (Success, Registry(reg.phoneUid[p := uid], reg.usersPhone[uid := now], reg.profiles[uid := fields]))
  }

  /** The removal branch of `apiUpdateUserPhone`: the phone in the user's
      profile (if any) leaves both indices, whoever it is bound to, and the
      profile fields are cleared. */
  function RemovePhone(reg: Registry, uid: Uid): (r: Registry)
    ensures GetUserPhone(r, uid) == None
    ensures GetUserPhone(reg, uid).Some? ==>
              GetUserPhone(reg, uid).value.phone !in r.phoneUid && uid !in r.usersPhone
    ensures forall q :: (GetUserPhone(reg, uid).None? || q != GetUserPhone(reg, uid).value.phone) ==>
              Owner(r, q) == Owner(reg, q)
    ensures forall u :: u != uid ==> GetUserPhone(r, u) == GetUserPhone(reg, u)
    ensures GetUserPhone(reg, uid).None? ==> r.usersPhone == reg.usersPhone
    ensures r.usersPhone - {uid} == reg.usersPhone - {uid}
  {
    var cleared := reg.profiles[uid := Profile("", false, 0)];
    match GetUserPhone(reg, uid)
    case Some(data) =>
      Registry(reg.phoneUid - {data.phone}, reg.usersPhone - {uid}, cleared)
    case None =>
      Registry(reg.phoneUid, reg.usersPhone, cleared)
  }

  /** The success step of `apiVerifyUserPhone`: the profile is marked
      verified at `now`; the phone itself and both indices stay as they
      are. */
  function ConfirmPhone(reg: Registry, uid: Uid, now: nat): (r: Registry)
    ensures GetUserPhone(reg, uid).Some? ==>
              GetUserPhone(r, uid) ==
                Some(PhoneData(GetUserPhone(reg, uid).value.phone, true, if now == 0 then None else Some(now)))
    ensures GetUserPhone(reg, uid).None? ==> GetUserPhone(r, uid).None?
    ensures forall u :: u != uid ==> GetUserPhone(r, u) == GetUserPhone(reg, u)
    ensures r.phoneUid == reg.phoneUid && r.usersPhone == reg.usersPhone
  {
    var phone := if uid in reg.profiles then reg.profiles[uid].phone else "";
    reg.(profiles := reg.profiles[uid := Profile(phone, true, now)])
  }

  /** What the host's range query in `userDelete` may return: phones bound
      to `uid`, and none only when no phone is bound to it. */
  predicate HostRangeAnswer(reg: Registry, uid: Uid, found: seq<string>) {
    && (forall i :: 0 <= i < |found| ==> found[i] in reg.phoneUid && reg.phoneUid[found[i]] == uid)
    && (|found| == 0 ==> forall q :: q in reg.phoneUid ==> reg.phoneUid[q] != uid)
  }

  /** The release step of `userDelete`: only the first phone found leaves
      `phone:uid`, and the user leaves `users:phone`. Profile fields are not
      touched. */
  function ReleaseFirstPhone(reg: Registry, uid: Uid, found: seq<string>): (r: Registry)
    requires HostRangeAnswer(reg, uid, found)
    ensures uid == 0 || |found| == 0 ==> r == reg
    ensures uid != 0 && |found| > 0 ==>
              && found[0] !in r.phoneUid
              && uid !in r.usersPhone
              && r.usersPhone - {uid} == reg.usersPhone - {uid}
              && (forall q :: q != found[0] ==> (q in r.phoneUid <==> q in reg.phoneUid))
              && (forall q :: q != found[0] && q in r.phoneUid ==> r.phoneUid[q] == reg.phoneUid[q])
              && r.profiles == reg.profiles
  {
    if uid == 0 || |found| == 0 then reg
    else Registry(reg.phoneUid - {found[0]}, reg.usersPhone - {uid}, reg.profiles)
  }

  /** Every bound phone and every profile phone is in normal form. */
  predicate RegistryOk(reg: Registry) {
    && (forall q :: q in reg.phoneUid ==> NoSeps(q))
    && (forall u :: u in reg.profiles ==> NoSeps(reg.profiles[u].phone))
  }

  // ---------------------------------------------------------------------
  // Lemmas

  /** One user per phone: a phone bound to user A is refused to user B,
      and re-saving it for A succeeds. */
  lemma PhoneUniqueness(reg: Registry, a: Uid, b: Uid, phone: Input, now: nat, later: nat)
    requires a != 0 && a != b
    requires SavePhoneToUser(reg, a, phone, true, now).0 == Success
    ensures var reg1 := SavePhoneToUser(reg, a, phone, true, now).1;
      && SavePhoneToUser(reg1, b, phone, true, later) == (Failure(PhoneExists), reg1)
      && SavePhoneToUser(reg1, a, phone, true, later).0 == Success
  {
  }

  /** Round trip: after a successful save, every separator form of the
      phone finds the user, and the profile holds the normalised phone. */
  lemma SaveThenFindAnyForm(reg: Registry, uid: Uid, a: string, c: char, b: string, verified: bool, now: nat)
    requires uid != 0 && IsSep(c)
    requires SavePhoneToUser(reg, uid, Text(a + b), verified, now).0 == Success
    ensures var reg1 := SavePhoneToUser(reg, uid, Text(a + b), verified, now).1;
      && FindUserByPhone(reg1, Text(a + [c] + b)) == Some(uid)
      && FindUserByPhone(reg1, Text(a + b)) == Some(uid)
      && (GetUserPhone(reg1, uid).Some? ==> GetUserPhone(reg1, uid).value.phone == Normalize(Text(a + [c] + b)))
  {
    SeparatorInsensitive(a, c, b);
  }

  /** Changing one's number leaves the old number bound: after saving p1 and
      then a different p2, both find the user, and nobody else can take p1. */
  lemma PreviousPhoneStaysBound(reg: Registry, uid: Uid, other: Uid, p1: Input, p2: Input,
                                t1: nat, t2: nat, t3: nat)
    requires uid != 0 && other != uid && Normalize(p1) != Normalize(p2)
    requires SavePhoneToUser(reg, uid, p1, true, t1).0 == Success
    requires SavePhoneToUser(SavePhoneToUser(reg, uid, p1, true, t1).1, uid, p2, true, t2).0 == Success
    ensures var reg2 := SavePhoneToUser(SavePhoneToUser(reg, uid, p1, true, t1).1, uid, p2, true, t2).1;
      && FindUserByPhone(reg2, p1) == Some(uid)
      && FindUserByPhone(reg2, p2) == Some(uid)
      && SavePhoneToUser(reg2, other, p1, true, t3).0 == Failure(PhoneExists)
  {
    var reg1 := SavePhoneToUser(reg, uid, p1, true, t1).1;
    assert Owner(reg1, Normalize(p1)) == Some(uid);
  }

  /** `userDelete` releases only the first phone the host reports: a
      second phone bound to the deleted user stays bound. */
  lemma DeleteReleasesOnlyFirst(reg: Registry, uid: Uid, p1: string, p2: string)
    requires uid != 0 && p1 != p2
    requires HostRangeAnswer(reg, uid, [p1, p2])
    ensures var r := ReleaseFirstPhone(reg, uid, [p1, p2]);
      && Owner(r, p1) == None
      && Owner(r, p2) == Some(uid)
  {
    assert [p1, p2][0] == p1 && [p1, p2][1] == p2;
  }

  lemma SaveKeepsInvariant(reg: Registry, uid: Uid, phone: Input, verified: bool, now: nat)
    requires RegistryOk(reg)
    ensures RegistryOk(SavePhoneToUser(reg, uid, phone, verified, now).1)
  {
  }

  lemma RemoveKeepsInvariant(reg: Registry, uid: Uid)
    requires RegistryOk(reg)
    ensures RegistryOk(RemovePhone(reg, uid))
  {
  }

  lemma ConfirmKeepsInvariant(reg: Registry, uid: Uid, now: nat)
    requires RegistryOk(reg)
    ensures RegistryOk(ConfirmPhone(reg, uid, now))
  {
  }

  lemma ReleaseKeepsInvariant(reg: Registry, uid: Uid, found: seq<string>)
    requires RegistryOk(reg) && HostRangeAnswer(reg, uid, found)
    ensures RegistryOk(ReleaseFirstPhone(reg, uid, found))
  {
  }
}
